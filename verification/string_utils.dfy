/** File-name helpers of `src/utils/stringUtils.ts`: sanitising a user-chosen name,
    truncating a name to a length limit while keeping its extension, and the
    timestamp fallback name. The wall clock is a parameter. */
module StringUtils {
  import opened Text

  // ---------------------------------------------------------------------------
  // sanitizeFileName
  // ---------------------------------------------------------------------------

  /** The characters `/ \ : * ? " < > |` that file systems refuse in a name. */
  predicate IsReserved(c: char)
  {
    c == '/' || c == '\\' || c == ':' || c == '*' || c == '?' || c == '"' || c == '<' || c == '>' || c == '|'
  }

  /** The name used when nothing usable is left of the input. */
  const Untitled: string := "untitled"

  /** `s.replace(/[/\\:*?"<>|]/g, '-')`. */
  function ReplaceReserved(s: string): (r: string)
    ensures |r| == |s|
    ensures forall i :: 0 <= i < |s| ==> r[i] == (if IsReserved(s[i]) then '-' else s[i])
  {
    if s == [] then [] else [if IsReserved(s[0]) then '-' else s[0]] + ReplaceReserved(s[1..])
  }

  /** The four rewrites of the sanitiser in source order: reserved characters to
      hyphens, whitespace runs to one hyphen, hyphen runs to one hyphen, and the
      leading and trailing hyphens removed. */
  function SanitizeRewrite(s: string): string
  {
    StripChar(ReplaceRuns(ReplaceRuns(ReplaceReserved(s), IsSpace, '-'), IsHyphen, '-'), '-')
  }

  /** A sanitised name: non-empty, free of reserved characters and whitespace,
      with isolated hyphens none of which is at either end. */
  predicate IsCleanName(r: string)
  {
    && r != []
    && (forall c :: c in r ==> !IsReserved(c) && !IsSpace(c))
    && NoDouble(r, '-')
    && r[0] != '-' && r[|r| - 1] != '-'
  }

  /** `sanitizeFileName`. */
  function SanitizeFileName(s: string): (r: string)
    ensures IsCleanName(r)
  {
    UntitledIsClean();
    if Trim(s) == [] then Untitled
    else
      var t := SanitizeRewrite(s);
      SanitizeRewriteClean(s);
      if t == [] then Untitled else t
  }

  lemma UntitledIsClean()
    ensures IsCleanName(Untitled)
  {
    assert forall i :: 0 <= i < |Untitled| ==> IsAsciiLetter(Untitled[i]);
  }

  /** What the rewrite produces, when non-empty, is a clean name. */
  lemma SanitizeRewriteClean(s: string)
    ensures var t := SanitizeRewrite(s);
            t != [] ==> IsCleanName(t)
  {
    var a := ReplaceReserved(s);
    var b := ReplaceRuns(a, IsSpace, '-');
    var c := ReplaceRuns(b, IsHyphen, '-');
    SpaceStageShape(s);
    CollapseStageShape(b);
    CollapsedHasNoDouble(b);
    StripNoDouble(c, '-');
  }

  /** The characters the sanitiser keeps: neither reserved, nor whitespace, nor a hyphen. */
  predicate IsNameChar(c: char)
  {
    !IsReserved(c) && !IsSpace(c) && c != '-'
  }

  lemma {:induction false} KeepReplaceReserved(s: string)
    ensures Keep(ReplaceReserved(s), IsNameChar) == Keep(s, IsNameChar)
    decreases |s|
  {
    if s != [] {
      KeepReplaceReserved(s[1..]);
      assert ReplaceReserved(s) == [if IsReserved(s[0]) then '-' else s[0]] + ReplaceReserved(s[1..]);
    }
  }

  /** A string without reserved characters, whitespace or name characters is all hyphens,
      and stripping hyphens leaves nothing of it. */
  lemma {:induction false} OnlyHyphensStripToEmpty(s: string)
    requires forall c :: c in s ==> !IsReserved(c) && !IsSpace(c)
    requires Keep(s, IsNameChar) == []
    ensures StripChar(s, '-') == []
    decreases |s|
  {
    if s != [] {
      assert s[0] in s;
      assert s[0] == '-';
      OnlyHyphensStripToEmpty(s[1..]);
      assert DropLeading(s, '-') == DropLeading(s[1..], '-');
    }
  }

  /** The rewrite keeps exactly the name characters of its input. */
  lemma SanitizeRewriteNameChars(s: string)
    ensures Keep(SanitizeRewrite(s), IsNameChar) == Keep(s, IsNameChar)
  {
    var a := ReplaceReserved(s);
    var b := ReplaceRuns(a, IsSpace, '-');
    var c := ReplaceRuns(b, IsHyphen, '-');
    KeepReplaceReserved(s);
    KeepReplaceRuns(a, IsSpace, '-', IsNameChar);
    KeepReplaceRuns(b, IsHyphen, '-', IsNameChar);
    KeepStrip(c, '-', IsNameChar);
  }

  /** After the reserved-character and whitespace rewrites neither kind is left. */
  lemma SpaceStageShape(s: string)
    ensures forall x :: x in ReplaceRuns(ReplaceReserved(s), IsSpace, '-') ==> !IsReserved(x) && !IsSpace(x)
  {
    var a := ReplaceReserved(s);
    assert forall x :: x in a ==> !IsReserved(x);
    ReplaceRunsMembers(a, IsSpace, '-');
  }

  /** Collapsing hyphens introduces neither reserved characters nor whitespace. */
  lemma CollapseStageShape(b: string)
    requires forall x :: x in b ==> !IsReserved(x) && !IsSpace(x)
    ensures forall x :: x in ReplaceRuns(b, IsHyphen, '-') ==> !IsReserved(x) && !IsSpace(x)
  {
    ReplaceRunsMembers(b, IsHyphen, '-');
  }

  /** The rewrite leaves nothing when there is no name character. */
  lemma SanitizeRewriteEmpty(s: string)
    requires Keep(s, IsNameChar) == []
    ensures SanitizeRewrite(s) == []
  {
    var a := ReplaceReserved(s);
    var b := ReplaceRuns(a, IsSpace, '-');
    var c := ReplaceRuns(b, IsHyphen, '-');
    KeepReplaceReserved(s);
    KeepReplaceRuns(a, IsSpace, '-', IsNameChar);
    KeepReplaceRuns(b, IsHyphen, '-', IsNameChar);
    SpaceStageShape(s);
    CollapseStageShape(b);
    OnlyHyphensStripToEmpty(c);
  }

  /** Contents of the sanitised name: the name characters of the input survive in
      order (only hyphens are added between them), and the fallback "untitled"
      is used exactly when the input has no name character at all. */
  lemma SanitizeKeepsNameChars(s: string)
    ensures Keep(s, IsNameChar) == [] ==> SanitizeFileName(s) == Untitled
    ensures Keep(s, IsNameChar) != [] ==> Keep(SanitizeFileName(s), IsNameChar) == Keep(s, IsNameChar)
  {
    if Keep(s, IsNameChar) == [] {
      SanitizeRewriteEmpty(s);
    } else {
      SanitizeRewriteNameChars(s);
      TrimEmptyIffBlank(s);
      NameCharInString(s);
      assert SanitizeRewrite(s) != [];
    }
  }

  /** A string holding a name character is not blank. */
  lemma {:induction false} NameCharInString(s: string)
    requires Keep(s, IsNameChar) != []
    ensures !IsBlank(s)
    decreases |s|
  {
    if !IsNameChar(s[0]) {
      NameCharInString(s[1..]);
      var i :| 0 <= i < |s[1..]| && !IsSpace(s[1..][i]);
      assert !IsSpace(s[i + 1]);
    }
  }

  /** A clean name is a fixed point of the sanitiser. */
  lemma SanitizeFixedPoint(t: string)
    requires IsCleanName(t)
    ensures SanitizeFileName(t) == t
  {
    TrimIdentity(t);
    assert ReplaceReserved(t) == t;
    forall i | 0 <= i < |t| ensures !IsSpace(t[i]) { assert t[i] in t; }
    ReplaceRunsIdentity(t, IsSpace, '-');
    CollapseIdentity(t);
    StripCharIdentity(t, '-');
  }

  /** `sanitizeFileName` is idempotent. */
  lemma SanitizeIdempotent(s: string)
    ensures SanitizeFileName(SanitizeFileName(s)) == SanitizeFileName(s)
  {
    SanitizeFixedPoint(SanitizeFileName(s));
  }

  /** Inputs that agree once reserved characters are replaced, and are not blank,
      sanitise alike. */
  lemma SanitizeAfterReplaceReserved(s: string, t: string)
    requires ReplaceReserved(s) == ReplaceReserved(t)
    requires Trim(s) != [] && Trim(t) != []
    ensures SanitizeFileName(s) == SanitizeFileName(t)
  {
  }

  /** Reserved characters become hyphens: "a/b:c" sanitises to "a-b-c". */
  lemma SanitizeExampleReserved(s: string)
    requires s == "a/b:c"
    ensures SanitizeFileName(s) == "a-b-c"
  {
    var t := "a-b-c";
    assert IsCleanName(t) by {
      assert forall i :: 0 <= i < |t| ==> t[i] == 'a' || t[i] == 'b' || t[i] == 'c' || t[i] == '-';
    }
    SanitizeFixedPoint(t);
    SanitizeExampleStep(s, t);
  }

  lemma SanitizeExampleStep(s: string, t: string)
    requires s == "a/b:c" && t == "a-b-c"
    ensures SanitizeFileName(s) == SanitizeFileName(t)
  {
    assert ReplaceReserved(s) == t;
    TrimIdentity(s);
    TrimIdentity(t);
    assert ReplaceReserved(t) == t;
    SanitizeAfterReplaceReserved(s, t);
  }

  /** Only reserved characters: "///***//" sanitises to "untitled". */
  lemma SanitizeExampleAllReserved(s: string)
    requires s == "///***//"
    ensures SanitizeFileName(s) == Untitled
  {
    assert forall i :: 0 <= i < |s| ==> s[i] == '/' || s[i] == '*';
    KeepNone(s, IsNameChar);
    SanitizeKeepsNameChars(s);
  }

  // ---------------------------------------------------------------------------
  // truncateFileName
  // ---------------------------------------------------------------------------

  /** `s.lastIndexOf(c)`: the index of the last `c`, or -1 when there is none. */
  function LastIndexOf(s: string, c: char): (i: int)
    ensures -1 <= i < |s|
    ensures i == -1 <==> c !in s
    ensures i >= 0 ==> s[i] == c && c !in s[i + 1..]
  {
    if s == [] then -1
    else if s[|s| - 1] == c then |s| - 1
    else
      var i := LastIndexOf(s[..|s| - 1], c);
      assert s == s[..|s| - 1] + [s[|s| - 1]];
      assert i >= 0 ==> s[i + 1..] == s[..|s| - 1][i + 1..] + [s[|s| - 1]];
      i
  }

  /** `s.substring(0, n)`: JavaScript clamps the end into `[0, |s|]`. */
  function Prefix(s: string, n: int): (r: string)
    ensures n <= 0 ==> r == []
    ensures 0 <= n <= |s| ==> r == s[..n]
    ensures n >= |s| ==> r == s
  {
    if n <= 0 then [] else if n >= |s| then s else s[..n]
  }

  /** The marker put where a name was cut. */
  const Ellipsis: string := "..."

  /** The position of the extension dot when the name has one: the last dot is
      neither the first nor the last character. */
  function ExtensionDot(s: string): (d: int)
  {
    LastIndexOf(s, '.')
  }

  predicate HasExtension(s: string)
  {
    0 < ExtensionDot(s) < |s| - 1
  }

  /** `truncateFileName`. */
  function TruncateFileName(s: string, maxLength: int): (r: string)
  {
    if |s| <= maxLength then s
    else
      var dot := ExtensionDot(s);
      if HasExtension(s) && maxLength - (|s| - dot) - 3 > 0 then
        var name := s[..dot];
        var extension := s[dot..];
        Prefix(name, maxLength - |extension| - 3) + Ellipsis + extension
      else
        Prefix(s, maxLength - 3) + Ellipsis
  }

  /** The extension branch applies: there is an extension and room for at least one
      character of the name besides the marker and the extension. */
  predicate KeepsExtension(s: string, maxLength: int)
  {
    |s| > maxLength && HasExtension(s) && maxLength - (|s| - ExtensionDot(s)) - 3 > 0
  }

  /** What truncation produces: the input itself when it fits; otherwise, when the
      extension branch applies, a prefix of the name, the marker and the original
      extension, of exactly `maxLength` characters; otherwise the first
      `maxLength - 3` characters (none when that is negative) and the marker. */
  lemma TruncateShape(s: string, maxLength: int)
    ensures |s| <= maxLength ==> TruncateFileName(s, maxLength) == s
    ensures KeepsExtension(s, maxLength) ==>
              var dot := ExtensionDot(s);
              var k := maxLength - (|s| - dot) - 3;
              0 < k < dot
              && TruncateFileName(s, maxLength) == s[..k] + Ellipsis + s[dot..]
              && EndsWith(TruncateFileName(s, maxLength), s[dot..])
              && |TruncateFileName(s, maxLength)| == maxLength
    ensures |s| > maxLength && !KeepsExtension(s, maxLength) ==>
              TruncateFileName(s, maxLength) == Prefix(s, maxLength - 3) + Ellipsis
  {
    if KeepsExtension(s, maxLength) {
      var dot := ExtensionDot(s);
      var r := TruncateFileName(s, maxLength);
      var k := maxLength - (|s| - dot) - 3;
      assert s[..dot][..k] == s[..k];
      assert r[|r| - |s[dot..]|..] == s[dot..];
    }
  }

  /** Length bound: a truncated name is exactly `maxLength` long when the limit is at
      least 3; below 3 the fallback yields the bare marker, longer than the limit. */
  lemma TruncateLength(s: string, maxLength: int)
    ensures |TruncateFileName(s, maxLength)| <= |s|
            || (|s| > maxLength && |TruncateFileName(s, maxLength)| == (if maxLength >= 3 then maxLength else 3))
    ensures |s| > maxLength && maxLength >= 3 ==> |TruncateFileName(s, maxLength)| == maxLength
    ensures |s| > maxLength && maxLength < 3 ==> TruncateFileName(s, maxLength) == Ellipsis
    ensures maxLength >= 3 ==> |TruncateFileName(s, maxLength)| <= maxLength
  {
    TruncateShape(s, maxLength);
  }

  // ---------------------------------------------------------------------------
  // generateTimestampFileName
  // ---------------------------------------------------------------------------

  /** A local wall-clock reading at second resolution, as `Date`'s getters return it
      (`month` already 1-based). */
  datatype LocalTime = LocalTime(year: int, month: nat, day: nat, hour: nat, minute: nat, second: nat)
  {
    predicate Valid()
    {
      1 <= month <= 12 && 1 <= day <= 31 && hour < 24 && minute < 60 && second < 60
    }
  }

  /** `generateTimestampFileName`: `image-YYYYMMDD-hhmmss`. */
  function TimestampFileName(t: LocalTime): string
  {
    "image-" + IntToString(t.year) + Pad2(t.month) + Pad2(t.day)
      + "-" + Pad2(t.hour) + Pad2(t.minute) + Pad2(t.second)
  }

  /** A year JavaScript prints with exactly four digits. */
  predicate FourDigitYear(t: LocalTime)
  {
    1000 <= t.year <= 9999
  }

  /** The timestamp name has the fixed shape `image-\d{8}-\d{6}` (21 characters) and
      every field can be read back from its position. */
  lemma TimestampShape(t: LocalTime)
    requires t.Valid() && FourDigitYear(t)
    ensures var r := TimestampFileName(t);
            && |r| == 21
            && r[..6] == "image-" && r[14] == '-'
            && AllDigits(r[6..14]) && AllDigits(r[15..])
            && DecimalValue(r[6..10]) == t.year
            && DecimalValue(r[10..12]) == t.month
            && DecimalValue(r[12..14]) == t.day
            && DecimalValue(r[15..17]) == t.hour
            && DecimalValue(r[17..19]) == t.minute
            && DecimalValue(r[19..21]) == t.second
  {
    NatToStringLength(t.year);
    DecimalRoundTrip(t.year);
    var y, mo, d, h, mi, se := IntToString(t.year), Pad2(t.month), Pad2(t.day), Pad2(t.hour), Pad2(t.minute), Pad2(t.second);
    var date, time := y + mo + d, h + mi + se;
    TimestampPieces(t, date, time);
    var r := TimestampFileName(t);
    AllDigits3(y, mo, d);
    AllDigits3(h, mi, se);
    assert r[15..21] == time;
    FieldsAt(r, 6, y, mo, d);
    FieldsAt(r, 15, h, mi, se);
  }

  /** Where the three fields of a group sit in the timestamp name. */
  lemma FieldsAt(r: string, i: nat, a: string, b: string, c: string)
    requires i + |a| + |b| + |c| <= |r| && r[i..i + |a| + |b| + |c|] == a + b + c
    ensures r[i..i + |a|] == a
    ensures r[i + |a|..i + |a| + |b|] == b
    ensures r[i + |a| + |b|..i + |a| + |b| + |c|] == c
  {
    var n := |a| + |b| + |c|;
    Pieces3(a, b, c);
    SubSlice(r, i, i + n, 0, |a|);
    SubSlice(r, i, i + n, |a|, |a| + |b|);
    SubSlice(r, i, i + n, |a| + |b|, n);
  }

  /** The timestamp name as the prefix, the date digits, a hyphen and the time digits. */
  lemma TimestampPieces(t: LocalTime, date: string, time: string)
    requires date == IntToString(t.year) + Pad2(t.month) + Pad2(t.day)
    requires time == Pad2(t.hour) + Pad2(t.minute) + Pad2(t.second)
    requires |date| == 8 && |time| == 6
    ensures var r := TimestampFileName(t);
            && |r| == 21 && r[..6] == "image-" && r[6..14] == date && r[14] == '-' && r[15..] == time
  {
    var r := TimestampFileName(t);
    assert r == "image-" + date + ("-" + time);
    Pieces3("image-", date, "-" + time);
  }

  /** Two distinct clock readings give distinct timestamp names. */
  lemma TimestampInjective(t: LocalTime, u: LocalTime)
    requires t.Valid() && FourDigitYear(t) && u.Valid() && FourDigitYear(u)
    requires TimestampFileName(t) == TimestampFileName(u)
    ensures t == u
  {
    TimestampShape(t);
    TimestampShape(u);
  }
}
