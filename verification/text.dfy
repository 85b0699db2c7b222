/** String primitives the TypeScript source takes from the JavaScript runtime:
    the `\s` whitespace class and `trim`, `startsWith`, `includes`, character
    replacement, run replacement by a regular expression of the form `/x+/g`,
    `split`/`join`, ASCII case mapping and decimal rendering of numbers.
    Strings are sequences of Unicode scalar values. */
module Text {

  // ---------------------------------------------------------------------------
  // Character classes
  // ---------------------------------------------------------------------------

  /** The ECMAScript LineTerminator class: the characters a regular-expression `.` does not match. */
  predicate IsLineTerminator(c: char)
  {
    c == '\n' || c == '\r' || c == '\U{2028}' || c == '\U{2029}'
  }

  /** `s` lies within one line: a regular-expression `.*` can consume all of it. */
  predicate NoLineTerminator(s: string)
  {
    forall i :: 0 <= i < |s| ==> !IsLineTerminator(s[i])
  }

  /** The ECMAScript `\s` class, which is also the set `String.prototype.trim` removes:
      WhiteSpace (tab, vertical tab, form feed, space, no-break space, the Unicode
      space separators, byte-order mark) together with the line terminators. */
  predicate IsSpace(c: char)
  {
    || c == '\t' || c == '\U{000B}' || c == '\U{000C}' || c == ' '
    || c == '\U{00A0}' || c == '\U{1680}' || ('\U{2000}' <= c <= '\U{200A}')
    || c == '\U{202F}' || c == '\U{205F}' || c == '\U{3000}' || c == '\U{FEFF}'
    || IsLineTerminator(c)
  }

  predicate IsAsciiUpper(c: char) { 'A' <= c <= 'Z' }
  predicate IsAsciiLower(c: char) { 'a' <= c <= 'z' }
  predicate IsAsciiLetter(c: char) { IsAsciiUpper(c) || IsAsciiLower(c) }
  predicate IsDigit(c: char) { '0' <= c <= '9' }

  /** The ECMAScript `\w` class (without the `u` flag): `[A-Za-z0-9_]`. */
  predicate IsWordChar(c: char) { IsAsciiLetter(c) || IsDigit(c) || c == '_' }

  function ToLowerChar(c: char): (r: char)
    ensures IsAsciiUpper(c) ==> IsAsciiLower(r)
    ensures !IsAsciiUpper(c) ==> r == c
  {
    if IsAsciiUpper(c) then (c as int + 32) as char else c
  }

  function ToUpperChar(c: char): (r: char)
    ensures IsAsciiLower(c) ==> IsAsciiUpper(r)
    ensures !IsAsciiLower(c) ==> r == c
  {
    if IsAsciiLower(c) then (c as int - 32) as char else c
  }

  lemma LowerUpperInverse(c: char)
    requires IsAsciiLower(c)
    ensures ToLowerChar(ToUpperChar(c)) == c
  {
  }

  lemma UpperLowerInverse(c: char)
    requires IsAsciiUpper(c)
    ensures ToUpperChar(ToLowerChar(c)) == c
  {
  }

  /** ASCII lower-casing of a whole string (`toLowerCase` restricted to ASCII letters). */
  function ToLowerAscii(s: string): (r: string)
    ensures |r| == |s|
    ensures forall i :: 0 <= i < |s| ==> r[i] == ToLowerChar(s[i])
  {
    if s == [] then [] else [ToLowerChar(s[0])] + ToLowerAscii(s[1..])
  }

  /** Lower-casing distributes over concatenation. */
  lemma ToLowerAppend(a: string, b: string)
    ensures ToLowerAscii(a + b) == ToLowerAscii(a) + ToLowerAscii(b)
  {
    var l := ToLowerAscii(a + b);
    forall i | 0 <= i < |a + b| ensures l[i] == (ToLowerAscii(a) + ToLowerAscii(b))[i] {
      if i < |a| { assert (a + b)[i] == a[i]; } else { assert (a + b)[i] == b[i - |a|]; }
    }
  }

  /** ASCII upper-casing of a whole string (`toUpperCase` restricted to ASCII letters). */
  function ToUpperAscii(s: string): (r: string)
    ensures |r| == |s|
    ensures forall i :: 0 <= i < |s| ==> r[i] == ToUpperChar(s[i])
  {
    if s == [] then [] else [ToUpperChar(s[0])] + ToUpperAscii(s[1..])
  }

  // ---------------------------------------------------------------------------
  // Prefixes and substrings
  // ---------------------------------------------------------------------------

  /** `s.startsWith(p)`. */
  predicate StartsWith(s: string, p: string)
  {
    |p| <= |s| && s[..|p|] == p
  }

  /** `s.endsWith(p)`. */
  predicate EndsWith(s: string, p: string)
  {
    |p| <= |s| && s[|s| - |p|..] == p
  }

  /** `s.includes(sub)`. */
  predicate Contains(s: string, sub: string)
  {
    exists i | 0 <= i <= |s| - |sub| :: StartsWith(s[i..], sub)
  }

  lemma StartsWithAppend(p: string, t: string)
    ensures StartsWith(p + t, p)
  {
    assert (p + t)[..|p|] == p;
  }

  lemma ContainsWitness(s: string, sub: string, i: nat)
    requires i + |sub| <= |s| && s[i..i + |sub|] == sub
    ensures Contains(s, sub)
  {
    assert s[i..][..|sub|] == s[i..i + |sub|];
    assert StartsWith(s[i..], sub);
  }

  /** A string of exactly one character `c` repeated `n` times. */
  function Repeat(c: char, n: nat): (r: string)
    ensures |r| == n && forall i :: 0 <= i < n ==> r[i] == c
  {
    if n == 0 then [] else [c] + Repeat(c, n - 1)
  }

  // ---------------------------------------------------------------------------
  // trim
  // ---------------------------------------------------------------------------

  function TrimStart(s: string): (r: string)
    ensures |r| <= |s| && r == s[|s| - |r|..]
    ensures r == [] || !IsSpace(r[0])
    ensures forall i :: 0 <= i < |s| - |r| ==> IsSpace(s[i])
  {
    if s != [] && IsSpace(s[0]) then TrimStart(s[1..]) else s
  }

  function TrimEnd(s: string): (r: string)
    ensures |r| <= |s| && r == s[..|r|]
    ensures r == [] || !IsSpace(r[|r| - 1])
    ensures forall i :: |r| <= i < |s| ==> IsSpace(s[i])
  {
    if s != [] && IsSpace(s[|s| - 1]) then TrimEnd(s[..|s| - 1]) else s
  }

  /** `s.trim()`: the infix of `s` left after removing leading and trailing whitespace. */
  function Trim(s: string): (r: string)
    ensures |r| <= |s| && forall c :: c in r ==> c in s
    ensures r == [] || (!IsSpace(r[0]) && !IsSpace(r[|r| - 1]))
  {
    var t := TrimStart(s);
    var r := TrimEnd(t);
    assert forall c :: c in r ==> c in t;
    r
  }

  /** Every character is whitespace. */
  predicate IsBlank(s: string)
  {
    forall i :: 0 <= i < |s| ==> IsSpace(s[i])
  }

  /** `s.trim() === ''` holds exactly when `s` consists of whitespace only. */
  lemma TrimEmptyIffBlank(s: string)
    ensures Trim(s) == [] <==> IsBlank(s)
  {
    var t := TrimStart(s);
    assert t != [] ==> t[0] == s[|s| - |t|];
  }

  /** A string with no whitespace at either end is its own trim. */
  lemma TrimIdentity(s: string)
    requires s == [] || (!IsSpace(s[0]) && !IsSpace(s[|s| - 1]))
    ensures Trim(s) == s
  {
  }

  // ---------------------------------------------------------------------------
  // Character replacement and filtering
  // ---------------------------------------------------------------------------

  /** `s.replace(/a/g, b)` for a single character `a`. */
  function ReplaceChar(s: string, a: char, b: char): (r: string)
    ensures |r| == |s|
    ensures forall i :: 0 <= i < |s| ==> r[i] == (if s[i] == a then b else s[i])
  {
    if s == [] then [] else [if s[0] == a then b else s[0]] + ReplaceChar(s[1..], a, b)
  }

  /** Replacing `a` by `b` and back is the identity when `b` did not occur. */
  lemma ReplaceCharInverse(s: string, a: char, b: char)
    requires b !in s
    ensures ReplaceChar(ReplaceChar(s, a, b), b, a) == s
  {
    var r := ReplaceChar(ReplaceChar(s, a, b), b, a);
    assert forall i :: 0 <= i < |s| ==> r[i] == s[i] by {
      forall i | 0 <= i < |s| ensures r[i] == s[i] {
        assert s[i] in s;
      }
    }
  }

  /** `s.replace(/\s/g, '')`: every whitespace character removed. */
  function RemoveSpaces(s: string): (r: string)
    ensures |r| <= |s|
    ensures forall c :: c in r ==> c in s && !IsSpace(c)
  {
    if s == [] then []
    else if IsSpace(s[0]) then RemoveSpaces(s[1..])
    else [s[0]] + RemoveSpaces(s[1..])
  }

  // ---------------------------------------------------------------------------
  // /x+/g replacement and /^x+|x+$/g stripping
  // ---------------------------------------------------------------------------

  /** The longest suffix of `s` that does not start with a character satisfying `P`. */
  function DropWhile(s: string, P: char -> bool): (r: string)
    ensures |r| <= |s|
    ensures r == [] || !P(r[0])
  {
    if s != [] && P(s[0]) then DropWhile(s[1..], P) else s
  }

  /** What `DropWhile` drops is a prefix of characters in `P`, and what it keeps is
      the rest of `s`. */
  lemma {:induction false} DropWhileSuffix(s: string, P: char -> bool)
    ensures var r := DropWhile(s, P);
            && r == s[|s| - |r|..]
            && forall i :: 0 <= i < |s| - |r| ==> P(s[i])
    decreases |s|
  {
    if s != [] && P(s[0]) {
      DropWhileSuffix(s[1..], P);
      var r := DropWhile(s, P);
      assert s[1..][|s| - 1 - |r|..] == s[|s| - |r|..];
    }
  }

  /** `s.replace(/p+/g, rep)` where `p` is the character class `P`: every maximal
      run of `P`-characters becomes a single `rep`. */
  function ReplaceRuns(s: string, P: char -> bool, rep: char): (r: string)
    ensures |r| <= |s|
    ensures s == [] <==> r == []
    ensures r != [] ==> r[0] == (if P(s[0]) then rep else s[0])
    decreases |s|
  {
    if s == [] then []
    else if P(s[0]) then [rep] + ReplaceRuns(DropWhile(s[1..], P), P, rep)
    else [s[0]] + ReplaceRuns(s[1..], P, rep)
  }

  /** Every character of the result is `rep` or a character of `s` outside `P`. */
  lemma {:induction false} ReplaceRunsMembers(s: string, P: char -> bool, rep: char)
    ensures forall c :: c in ReplaceRuns(s, P, rep) ==> c == rep || (c in s && !P(c))
    decreases |s|
  {
    if s != [] {
      if P(s[0]) {
        var t := DropWhile(s[1..], P);
        ReplaceRunsMembers(t, P, rep);
        DropWhileSuffix(s[1..], P);
        forall c | c in t ensures c in s {
          var i :| 0 <= i < |t| && t[i] == c;
          assert c == s[1..][|s| - 1 - |t| + i];
        }
      } else {
        ReplaceRunsMembers(s[1..], P, rep);
      }
    }
  }

  /** `s` has no two adjacent occurrences of `c`. */
  predicate NoDouble(s: string, c: char)
  {
    forall i :: 0 <= i < |s| - 1 ==> !(s[i] == c && s[i + 1] == c)
  }

  predicate IsHyphen(c: char) { c == '-' }

  /** Collapsing hyphen runs leaves no two adjacent hyphens. */
  lemma {:induction false} CollapsedHasNoDouble(s: string)
    ensures NoDouble(ReplaceRuns(s, IsHyphen, '-'), '-')
    decreases |s|
  {
    if s == [] {
    } else if IsHyphen(s[0]) {
      var t := DropWhile(s[1..], IsHyphen);
      var u := ReplaceRuns(t, IsHyphen, '-');
      CollapsedHasNoDouble(t);
      assert ReplaceRuns(s, IsHyphen, '-') == ['-'] + u;
      assert u == [] || u[0] != '-';
    } else {
      CollapsedHasNoDouble(s[1..]);
      assert ReplaceRuns(s, IsHyphen, '-') == [s[0]] + ReplaceRuns(s[1..], IsHyphen, '-');
    }
  }

  /** A string whose hyphens are already isolated is unchanged by collapsing. */
  lemma {:induction false} CollapseIdentity(s: string)
    requires NoDouble(s, '-')
    ensures ReplaceRuns(s, IsHyphen, '-') == s
    decreases |s|
  {
    if s == [] {
    } else {
      assert NoDouble(s[1..], '-') by {
        forall i | 0 <= i < |s[1..]| - 1 ensures !(s[1..][i] == '-' && s[1..][i + 1] == '-') {
          assert s[1..][i] == s[i + 1] && s[1..][i + 1] == s[i + 2];
        }
      }
      if IsHyphen(s[0]) {
        assert DropWhile(s[1..], IsHyphen) == s[1..];
      }
      CollapseIdentity(s[1..]);
    }
  }

  /** A string containing no `P`-character is unchanged by replacing `P`-runs. */
  lemma {:induction false} ReplaceRunsIdentity(s: string, P: char -> bool, rep: char)
    requires forall i :: 0 <= i < |s| ==> !P(s[i])
    ensures ReplaceRuns(s, P, rep) == s
    decreases |s|
  {
    if s != [] {
      ReplaceRunsIdentity(s[1..], P, rep);
    }
  }

  /** A prefix without `P`-characters passes through the run replacement unchanged. */
  lemma ReplaceRunsPrefix(a: string, t: string, P: char -> bool, rep: char)
    requires forall i :: 0 <= i < |a| ==> !P(a[i])
    ensures ReplaceRuns(a + t, P, rep) == a + ReplaceRuns(t, P, rep)
  {
    var s := a + t;
    assert forall i :: 0 <= i < |a| ==> s[i] == a[i];
    ReplaceRunsSkip(s, |a|, P, rep);
    assert s[..|a|] == a && s[|a|..] == t;
  }

  /** The first `k` characters of `s`, none in `P`, pass through unchanged. */
  lemma {:induction false} ReplaceRunsSkip(s: string, k: nat, P: char -> bool, rep: char)
    requires k <= |s| && forall i :: 0 <= i < k ==> !P(s[i])
    ensures ReplaceRuns(s, P, rep) == s[..k] + ReplaceRuns(s[k..], P, rep)
    decreases k
  {
    if k == 0 {
      assert s[..0] == [] && s[0..] == s;
    } else {
      ReplaceRunsSkip(s[1..], k - 1, P, rep);
      assert s[1..][k - 1..] == s[k..];
      assert [s[0]] + s[1..][..k - 1] == s[..k];
    }
  }

  /** A first character outside `P` passes through the run replacement unchanged. */
  lemma ReplaceRunsCons(x: char, s: string, P: char -> bool, rep: char)
    requires !P(x)
    ensures ReplaceRuns([x] + s, P, rep) == [x] + ReplaceRuns(s, P, rep)
  {
    assert ([x] + s)[1..] == s;
  }

  /** A whole run of `P`-characters becomes one `rep`. */
  lemma ReplaceRunsRun(run: string, t: string, P: char -> bool, rep: char)
    requires run != [] && forall i :: 0 <= i < |run| ==> P(run[i])
    requires t == [] || !P(t[0])
    ensures ReplaceRuns(run + t, P, rep) == [rep] + ReplaceRuns(t, P, rep)
  {
    var s := run + t;
    assert s[1..] == run[1..] + t;
    DropWhileRun(run[1..], t, P);
  }

  lemma {:induction false} DropWhileRun(run: string, t: string, P: char -> bool)
    requires forall i :: 0 <= i < |run| ==> P(run[i])
    requires t == [] || !P(t[0])
    ensures DropWhile(run + t, P) == t
    decreases |run|
  {
    if run == [] {
      assert run + t == t;
    } else {
      assert (run + t)[1..] == run[1..] + t;
      DropWhileRun(run[1..], t, P);
    }
  }

  /** `s.replace(/^c+|c+$/g, '')`: the leading and trailing runs of `c` removed. */
  function StripChar(s: string, c: char): (r: string)
    ensures |r| <= |s|
    ensures forall x :: x in r ==> x in s
    ensures r == [] || (r[0] != c && r[|r| - 1] != c)
  {
    var t := DropLeading(s, c);
    var r := DropTrailing(t, c);
    assert forall x :: x in r ==> x in t;
    assert r != [] ==> r[0] == t[0] && r[|r| - 1] != c;
    r
  }

  function DropLeading(s: string, c: char): (r: string)
    ensures |r| <= |s| && r == s[|s| - |r|..]
    ensures r == [] || r[0] != c
    ensures forall i :: 0 <= i < |s| - |r| ==> s[i] == c
  {
    if s != [] && s[0] == c then DropLeading(s[1..], c) else s
  }

  function DropTrailing(s: string, c: char): (r: string)
    ensures |r| <= |s| && r == s[..|r|]
    ensures r == [] || r[|r| - 1] != c
    ensures forall i :: |r| <= i < |s| ==> s[i] == c
  {
    if s != [] && s[|s| - 1] == c then DropTrailing(s[..|s| - 1], c) else s
  }

  /** Stripping the end runs of `c` from a string whose `c`s are isolated keeps them isolated. */
  lemma StripNoDouble(s: string, c: char)
    requires NoDouble(s, c)
    ensures NoDouble(StripChar(s, c), c)
  {
    var t := DropLeading(s, c);
    var r := DropTrailing(t, c);
    var k := |s| - |t|;
    forall i | 0 <= i < |r| - 1 ensures !(r[i] == c && r[i + 1] == c) {
      assert r[i] == s[k + i] && r[i + 1] == s[k + i + 1];
    }
  }

  /** A string that neither starts nor ends with `c` is unchanged by stripping. */
  lemma StripCharIdentity(s: string, c: char)
    requires s == [] || (s[0] != c && s[|s| - 1] != c)
    ensures StripChar(s, c) == s
  {
  }

  // ---------------------------------------------------------------------------
  // keeping one character class
  // ---------------------------------------------------------------------------

  /** The characters of `s` that satisfy `P`, in order: `s.replace(/[^p]/g, '')`. */
  function Keep(s: string, P: char -> bool): (r: string)
    ensures |r| <= |s|
  {
    if s == [] then []
    else if P(s[0]) then [s[0]] + Keep(s[1..], P)
    else Keep(s[1..], P)
  }

  /** What is kept satisfies `P` and comes from `s`. */
  lemma {:induction false} KeepMembers(s: string, P: char -> bool)
    ensures forall c :: c in Keep(s, P) ==> c in s && P(c)
    decreases |s|
  {
    if s != [] {
      KeepMembers(s[1..], P);
    }
  }

  lemma {:induction false} KeepAppend(a: string, b: string, P: char -> bool)
    ensures Keep(a + b, P) == Keep(a, P) + Keep(b, P)
    decreases |a|
  {
    if a == [] {
      assert a + b == b;
    } else {
      KeepAppend(a[1..], b, P);
      assert a + b == [a[0]] + (a[1..] + b);
      assert a == [a[0]] + a[1..];
      KeepCons(a[0], a[1..] + b, P);
      KeepCons(a[0], a[1..], P);
      var h := if P(a[0]) then [a[0]] else [];
      assert h + (Keep(a[1..], P) + Keep(b, P)) == (h + Keep(a[1..], P)) + Keep(b, P);
    }
  }

  /** How the first character contributes to what is kept. */
  lemma KeepCons(x: char, s: string, P: char -> bool)
    ensures Keep([x] + s, P) == (if P(x) then [x] else []) + Keep(s, P)
  {
    assert ([x] + s)[1..] == s;
  }

  /** Nothing is kept of a string none of whose characters satisfies `P`. */
  lemma {:induction false} KeepNone(s: string, P: char -> bool)
    requires forall i :: 0 <= i < |s| ==> !P(s[i])
    ensures Keep(s, P) == []
    decreases |s|
  {
    if s != [] {
      KeepNone(s[1..], P);
    }
  }

  /** Everything is kept of a string all of whose characters satisfy `P`. */
  lemma {:induction false} KeepAll(s: string, P: char -> bool)
    requires forall i :: 0 <= i < |s| ==> P(s[i])
    ensures Keep(s, P) == s
    decreases |s|
  {
    if s != [] {
      KeepAll(s[1..], P);
    }
  }

  /** Filtering by a wider class first changes nothing. */
  lemma {:induction false} KeepKeep(s: string, P: char -> bool, Q: char -> bool)
    requires forall c :: P(c) ==> Q(c)
    ensures Keep(Keep(s, Q), P) == Keep(s, P)
    decreases |s|
  {
    if s != [] {
      KeepKeep(s[1..], P, Q);
      if Q(s[0]) {
        assert Keep(s, Q) == [s[0]] + Keep(s[1..], Q);
        assert ([s[0]] + Keep(s[1..], Q))[1..] == Keep(s[1..], Q);
      }
    }
  }

  /** Dropping a leading run of characters outside `Q` keeps the same `Q`-characters. */
  lemma {:induction false} KeepDropWhile(s: string, P: char -> bool, Q: char -> bool)
    requires forall c :: P(c) ==> !Q(c)
    ensures Keep(DropWhile(s, P), Q) == Keep(s, Q)
    decreases |s|
  {
    if s != [] && P(s[0]) {
      KeepDropWhile(s[1..], P, Q);
    }
  }

  /** Replacing runs of characters outside `Q` by a character outside `Q` keeps the
      same `Q`-characters. */
  lemma {:induction false} KeepReplaceRuns(s: string, P: char -> bool, rep: char, Q: char -> bool)
    requires forall c :: P(c) ==> !Q(c)
    requires !Q(rep)
    ensures Keep(ReplaceRuns(s, P, rep), Q) == Keep(s, Q)
    decreases |s|
  {
    if s == [] {
    } else if P(s[0]) {
      var t := DropWhile(s[1..], P);
      KeepDropWhile(s[1..], P, Q);
      KeepReplaceRuns(t, P, rep, Q);
      assert ReplaceRuns(s, P, rep) == [rep] + ReplaceRuns(t, P, rep);
    } else {
      KeepReplaceRuns(s[1..], P, rep, Q);
      assert ReplaceRuns(s, P, rep) == [s[0]] + ReplaceRuns(s[1..], P, rep);
    }
  }

  /** Cutting off a prefix that holds no `Q`-character keeps the same `Q`-characters. */
  lemma {:induction false} KeepDropPrefix(s: string, k: nat, Q: char -> bool)
    requires k <= |s|
    requires forall i :: 0 <= i < k ==> !Q(s[i])
    ensures Keep(s[k..], Q) == Keep(s, Q)
    decreases k
  {
    if k > 0 {
      assert s[1..][k - 1..] == s[k..];
      KeepDropPrefix(s[1..], k - 1, Q);
    }
  }

  /** Cutting off a suffix that holds no `Q`-character keeps the same `Q`-characters. */
  lemma {:induction false} KeepDropSuffix(s: string, n: nat, Q: char -> bool)
    requires n <= |s|
    requires forall i :: n <= i < |s| ==> !Q(s[i])
    ensures Keep(s[..n], Q) == Keep(s, Q)
    decreases |s|
  {
    if n == |s| {
      assert s[..n] == s;
    } else if n == 0 {
      KeepNone(s, Q);
    } else {
      var p := s[..n];
      assert p[0] == s[0] && p[1..] == s[1..][..n - 1];
      KeepDropSuffix(s[1..], n - 1, Q);
    }
  }

  /** Stripping a character outside `Q` from both ends keeps the same `Q`-characters. */
  lemma KeepStrip(s: string, c: char, Q: char -> bool)
    requires !Q(c)
    ensures Keep(StripChar(s, c), Q) == Keep(s, Q)
  {
    var t := DropLeading(s, c);
    var r := DropTrailing(t, c);
    KeepDropPrefix(s, |s| - |t|, Q);
    KeepDropSuffix(t, |r|, Q);
  }

  /** Trimming whitespace keeps the same characters of a class without whitespace. */
  lemma KeepTrim(s: string, Q: char -> bool)
    requires forall c :: IsSpace(c) ==> !Q(c)
    ensures Keep(Trim(s), Q) == Keep(s, Q)
  {
    var t := TrimStart(s);
    var r := TrimEnd(t);
    assert Trim(s) == r;
    KeepDropPrefix(s, |s| - |t|, Q);
    KeepDropSuffix(t, |r|, Q);
  }

  // ---------------------------------------------------------------------------
  // split / join
  // ---------------------------------------------------------------------------

  /** `s.split(c)` for a one-character separator: never empty, one more part than separators. */
  function Split(s: string, c: char): (parts: seq<string>)
    ensures |parts| >= 1
    ensures forall k :: 0 <= k < |parts| ==> c !in parts[k]
  {
    if s == [] then [[]]
    else
      var rest := Split(s[1..], c);
      if s[0] == c then [[]] + rest
      else [[s[0]] + rest[0]] + rest[1..]
  }

  /** `parts.join(c)`. */
  function Join(parts: seq<string>, c: char): string
  {
    if |parts| == 0 then []
    else if |parts| == 1 then parts[0]
    else parts[0] + [c] + Join(parts[1..], c)
  }

  /** Joining one more part appends the separator and the part. */
  lemma {:induction false} JoinAppendLast(parts: seq<string>, x: string, c: char)
    requires |parts| >= 1
    ensures Join(parts + [x], c) == Join(parts, c) + [c] + x
    decreases |parts|
  {
    if |parts| == 1 {
      assert (parts + [x])[1..] == [x];
    } else {
      assert (parts + [x])[1..] == parts[1..] + [x];
      JoinAppendLast(parts[1..], x, c);
    }
  }

  /** Splitting on `a` and joining with `b` is replacing every `a` by `b`. */
  lemma {:induction false} JoinSplit(s: string, a: char, b: char)
    ensures Join(Split(s, a), b) == ReplaceChar(s, a, b)
    decreases |s|
  {
    if s != [] {
      var rest := Split(s[1..], a);
      JoinSplit(s[1..], a, b);
      if s[0] == a {
        assert Split(s, a) == [[]] + rest;
        assert ReplaceChar(s, a, b) == [b] + ReplaceChar(s[1..], a, b);
      } else {
        var parts := Split(s, a);
        assert parts == [[s[0]] + rest[0]] + rest[1..];
        assert ReplaceChar(s, a, b) == [s[0]] + ReplaceChar(s[1..], a, b);
        if |rest| == 1 {
          assert Join(parts, b) == [s[0]] + rest[0];
        } else {
          assert parts[1..] == rest[1..];
          assert Join(parts, b) == [s[0]] + rest[0] + [b] + Join(rest[1..], b);
        }
      }
    }
  }

  /** Splitting a string that starts with a part and the separator. */
  lemma SplitPrefix(p: string, c: char, t: string)
    requires c !in p
    ensures Split(p + [c] + t, c) == [p] + Split(t, c)
    decreases |p|
  {
    if p == [] {
      assert p + [c] + t == [c] + t;
      assert ([c] + t)[1..] == t;
    } else {
      assert (p + [c] + t)[1..] == p[1..] + [c] + t;
      assert p[0] in p;
      assert p[1..] + [] == p[1..];
      SplitPrefix(p[1..], c, t);
      assert [p[0]] + p[1..] == p;
    }
  }

  /** A string without the separator splits into itself. */
  lemma {:induction false} SplitNoSeparator(s: string, c: char)
    requires c !in s
    ensures Split(s, c) == [s]
    decreases |s|
  {
    if s != [] {
      assert s[0] in s;
      assert forall x :: x in s[1..] ==> x in s;
      SplitNoSeparator(s[1..], c);
      assert [s[0]] + s[1..] == s;
    }
  }

  /** Splitting two strings glued by a separator splits each. */
  lemma {:induction false} SplitAppend(a: string, c: char, b: string)
    ensures Split(a + [c] + b, c) == Split(a, c) + Split(b, c)
    decreases |a|
  {
    if a == [] {
      assert a + [c] + b == [c] + b;
      SplitCons(c, b, c);
    } else {
      SplitAppend(a[1..], c, b);
      assert a + [c] + b == [a[0]] + (a[1..] + [c] + b);
      assert a == [a[0]] + a[1..];
      SplitConsAppend(a[0], a[1..], c, b);
    }
  }

  /** The step of `SplitAppend`: a first character in front of both sides. */
  lemma SplitConsAppend(x: char, a: string, c: char, b: string)
    requires Split(a + [c] + b, c) == Split(a, c) + Split(b, c)
    ensures Split([x] + (a + [c] + b), c) == Split([x] + a, c) + Split(b, c)
  {
    SplitCons(x, a + [c] + b, c);
    SplitCons(x, a, c);
    ConsPartAppend(x, c, Split(a, c), Split(b, c));
  }

  /** The parts of `[x] + s` from the parts `r` of `s`: a separator opens an empty part,
      any other character joins the first part. */
  function ConsPart(x: char, c: char, r: seq<string>): seq<string>
    requires |r| >= 1
  {
    if x == c then [[]] + r else [[x] + r[0]] + r[1..]
  }

  lemma ConsPartAppend(x: char, c: char, ra: seq<string>, rb: seq<string>)
    requires |ra| >= 1
    ensures ConsPart(x, c, ra + rb) == ConsPart(x, c, ra) + rb
  {
    if x != c {
      assert (ra + rb)[0] == ra[0];
      assert (ra + rb)[1..] == ra[1..] + rb;
    }
  }

  /** How the first character extends a split. */
  lemma SplitCons(x: char, s: string, c: char)
    ensures Split([x] + s, c) == ConsPart(x, c, Split(s, c))
  {
    assert ([x] + s)[1..] == s;
  }

  /** Joining parts that hold no separator and splitting again gives the parts back. */
  lemma {:induction false} SplitJoin(parts: seq<string>, c: char)
    requires |parts| >= 1
    requires forall k :: 0 <= k < |parts| ==> c !in parts[k]
    ensures Split(Join(parts, c), c) == parts
    decreases |parts|
  {
    if |parts| == 1 {
      SplitNoSeparator(parts[0], c);
    } else {
      SplitJoin(parts[1..], c);
      SplitPrefix(parts[0], c, Join(parts[1..], c));
      assert [parts[0]] + parts[1..] == parts;
    }
  }

  // ---------------------------------------------------------------------------
  // Decimal rendering
  // ---------------------------------------------------------------------------

  function DigitChar(d: nat): (c: char)
    requires d < 10
    ensures IsDigit(c)
  {
    ('0' as int + d) as char
  }

  function DigitValue(c: char): (d: nat)
    requires IsDigit(c)
    ensures d < 10
  {
    c as int - '0' as int
  }

  predicate AllDigits(s: string)
  {
    forall i :: 0 <= i < |s| ==> IsDigit(s[i])
  }

  /** `String(n)` for a non-negative integer: its decimal digits without leading zeros. */
  function NatToString(n: nat): (r: string)
    ensures |r| >= 1 && AllDigits(r)
    ensures n >= 10 ==> r[0] != '0'
    decreases n
  {
    if n < 10 then [DigitChar(n)] else NatToString(n / 10) + [DigitChar(n % 10)]
  }

  /** The number a string of decimal digits denotes. */
  function DecimalValue(s: string): nat
    requires AllDigits(s)
  {
    if s == [] then 0 else DecimalValue(s[..|s| - 1]) * 10 + DigitValue(s[|s| - 1])
  }

  /** Reading back the decimal rendering of `n` yields `n`. */
  lemma {:induction false} DecimalRoundTrip(n: nat)
    ensures DecimalValue(NatToString(n)) == n
    decreases n
  {
    if n >= 10 {
      var r := NatToString(n);
      DecimalRoundTrip(n / 10);
      assert r[..|r| - 1] == NatToString(n / 10);
    }
  }

  /** Distinct numbers have distinct decimal renderings. */
  lemma NatToStringInjective(m: nat, n: nat)
    requires NatToString(m) == NatToString(n)
    ensures m == n
  {
    DecimalRoundTrip(m);
    DecimalRoundTrip(n);
  }

  lemma NatToStringLength(n: nat)
    ensures n < 10 ==> |NatToString(n)| == 1
    ensures 10 <= n < 100 ==> |NatToString(n)| == 2
    ensures 1000 <= n < 10000 ==> |NatToString(n)| == 4
  {
    if n >= 10 {
      NatToStringLength(n / 10);
      assert |NatToString(n)| == |NatToString(n / 10)| + 1;
    }
  }

  /** `String(i)` for any integer: a minus sign before the digits of a negative number. */
  function IntToString(i: int): (r: string)
    ensures i >= 0 ==> r == NatToString(i)
    ensures i < 0 ==> r == "-" + NatToString(-i)
  {
    if i >= 0 then NatToString(i) else "-" + NatToString(-i)
  }

  /** `String(n).padStart(2, '0')`. */
  function Pad2(n: nat): (r: string)
    ensures AllDigits(r)
    ensures n < 100 ==> |r| == 2 && DecimalValue(r) == n
  {
    NatToStringLength(n);
    DecimalRoundTrip(n);
    var s := NatToString(n);
    if |s| < 2 then
      var r := "0" + s;
      assert r[..1] == "0";
      r
    else s
  }

  /** The three pieces of a concatenation of three strings. */
  lemma Pieces3(a: string, b: string, c: string)
    ensures var r := a + b + c;
            && r[..|a|] == a && r[|a|..|a| + |b|] == b && r[|a| + |b|..] == c
  {
  }

  /** Digit strings glued together are a digit string. */
  lemma AllDigits3(a: string, b: string, c: string)
    requires AllDigits(a) && AllDigits(b) && AllDigits(c)
    ensures AllDigits(a + b + c)
  {
    var r := a + b + c;
    forall i | 0 <= i < |r| ensures IsDigit(r[i]) {
      if i < |a| {
        assert r[i] == a[i];
      } else if i < |a| + |b| {
        assert r[i] == b[i - |a|];
      } else {
        assert r[i] == c[i - |a| - |b|];
      }
    }
  }

  /** A slice of a slice is a slice. */
  lemma SubSlice(r: string, i: nat, j: nat, k: nat, l: nat)
    requires i <= j <= |r| && k <= l <= j - i
    ensures r[i..j][k..l] == r[i + k..i + l]
  {
    forall m | 0 <= m < l - k ensures r[i..j][k..l][m] == r[i + k..i + l][m] {
      assert r[i..j][k..l][m] == r[i..j][k + m] == r[i + k + m];
    }
  }
}
