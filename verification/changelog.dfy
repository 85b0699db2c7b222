/** The release helper `scripts/update-changelog.js`: the local date as `YYYY-MM-DD`,
    and the rewrite that opens a version section under the `## [Unreleased]`
    header of the changelog. Reading `package.json` and the changelog file, and
    writing it back, are left to the caller: the content, version and date are
    parameters and the rewritten content (or its absence) is the result. */
module Changelog {
  import opened Wrappers
  import opened Text
  import StringUtils

  // ---------------------------------------------------------------------------
  // getCurrentDate
  // ---------------------------------------------------------------------------

  /** `getCurrentDate` for a local date whose month is already 1-based. */
  function CurrentDate(year: int, month: nat, day: nat): string
  {
    IntToString(year) + "-" + Pad2(month) + "-" + Pad2(day)
  }

  /** For a four-digit year the date is `YYYY-MM-DD`, ten characters whose three fields
      read back as the year, month and day. */
  lemma CurrentDateShape(year: int, month: nat, day: nat)
    requires 1000 <= year <= 9999 && 1 <= month <= 12 && 1 <= day <= 31
    ensures var r := CurrentDate(year, month, day);
            && |r| == 10 && r[4] == '-' && r[7] == '-'
            && AllDigits(r[..4]) && AllDigits(r[5..7]) && AllDigits(r[8..])
            && DecimalValue(r[..4]) == year
            && DecimalValue(r[5..7]) == month
            && DecimalValue(r[8..]) == day
  {
    NatToStringLength(year);
    DecimalRoundTrip(year);
    var y, m, d := IntToString(year), Pad2(month), Pad2(day);
    var r := y + "-" + m + "-" + d;
    assert r[..4] == y;
    assert r[5..7] == m;
    assert r[8..] == d;
  }

  /** Distinct dates give distinct texts. */
  lemma CurrentDateInjective(y1: int, m1: nat, d1: nat, y2: int, m2: nat, d2: nat)
    requires 1000 <= y1 <= 9999 && 1 <= m1 <= 12 && 1 <= d1 <= 31
    requires 1000 <= y2 <= 9999 && 1 <= m2 <= 12 && 1 <= d2 <= 31
    requires CurrentDate(y1, m1, d1) == CurrentDate(y2, m2, d2)
    ensures y1 == y2 && m1 == m2 && d1 == d2
  {
    CurrentDateShape(y1, m1, d1);
    CurrentDateShape(y2, m2, d2);
  }

  // ---------------------------------------------------------------------------
  // The pattern /## \[Unreleased\]\s*\n/
  // ---------------------------------------------------------------------------

  /** The literal part of the pattern. */
  const Header: string := "## [Unreleased]"

  /** The number of whitespace characters `s` starts with. */
  function SpaceRun(s: string): (n: nat)
    ensures n <= |s|
    ensures forall j :: 0 <= j < n ==> IsSpace(s[j])
    ensures n < |s| ==> !IsSpace(s[n])
  {
    if s != [] && IsSpace(s[0]) then 1 + SpaceRun(s[1..]) else 0
  }

  /** Where a match starting at `i` ends, if one does: after the header, the greedy
      `\s*` takes the whole whitespace run and gives back characters until a `\n`
      follows, so the match ends just after the last `\n` of that run. */
  function MatchEnd(content: string, i: nat): (e: Option<nat>)
    requires i <= |content|
    ensures e.Some? ==> i + |Header| < e.value <= |content|
  {
    if !StartsWith(content[i..], Header) then None
    else
      var after := content[i + |Header|..];
      var run := after[..SpaceRun(after)];
      var k := StringUtils.LastIndexOf(run, '\n');
      if k < 0 then None else Some(i + |Header| + k + 1)
  }

  /** The leftmost match at or after `i`, as its start and end. */
  function FirstMatch(content: string, i: nat): (m: Option<(nat, nat)>)
    requires i <= |content|
    ensures m.None? ==> forall j :: i <= j <= |content| ==> MatchEnd(content, j).None?
    ensures m.Some? ==> && i <= m.value.0 <= |content|
                        && MatchEnd(content, m.value.0) == Some(m.value.1)
                        && forall j :: i <= j < m.value.0 ==> MatchEnd(content, j).None?
    decreases |content| - i
  {
    match MatchEnd(content, i)
    case Some(e) => Some((i, e))
    case None =>
      if i == |content| then None
      else
        var m := FirstMatch(content, i + 1);
        NoMatchExtends(content, i, if m.Some? then m.value.0 else |content| + 1);
        m
  }

  /** A position without a match extends a stretch without one that follows it. */
  lemma NoMatchExtends(content: string, i: nat, n: nat)
    requires i < |content| && MatchEnd(content, i).None? && n <= |content| + 1
    requires forall j :: i + 1 <= j < n ==> MatchEnd(content, j).None?
    ensures forall j :: i <= j < n ==> MatchEnd(content, j).None?
  {
  }

  /** The text that replaces the match: the header again, a blank line, and the new
      version's heading with its date. */
  function VersionHeader(version: string, date: string): string
  {
    "## [Unreleased]\n\n## [" + version + "] - " + date + "\n\n"
  }

  // ---------------------------------------------------------------------------
  // The replacement patterns of String.prototype.replace
  // ---------------------------------------------------------------------------

  /** The replacement text as `String.prototype.replace` reads it (GetSubstitution, section
      22.1.3.19.1 of ECMA-262): `$$` is a `$`, `$&` the matched text, `` $` `` the text
      before the match and `$'` the text after it. The pattern has no capture groups, so
      `$1` to `$99` and `$<` stay as they are, like every other character. */
  function Expand(t: string, matched: string, before: string, after: string): string
    decreases |t|
  {
    if t == [] then []
    else if |t| >= 2 && t[0] == '$' && t[1] == '$' then "$" + Expand(t[2..], matched, before, after)
    else if |t| >= 2 && t[0] == '$' && t[1] == '&' then matched + Expand(t[2..], matched, before, after)
    else if |t| >= 2 && t[0] == '$' && t[1] == '`' then before + Expand(t[2..], matched, before, after)
    else if |t| >= 2 && t[0] == '$' && t[1] == '\'' then after + Expand(t[2..], matched, before, after)
    else [t[0]] + Expand(t[1..], matched, before, after)
  }

  /** A prefix without `$` is copied as it is. */
  lemma {:induction false} ExpandPrefix(p: string, t: string, matched: string, before: string, after: string)
    requires '$' !in p
    ensures Expand(p + t, matched, before, after) == p + Expand(t, matched, before, after)
    decreases |p|
  {
    if p != [] {
      assert (p + t)[0] == p[0] && (p + t)[1..] == p[1..] + t;
      assert '$' !in p[1..] by { assert forall c :: c in p[1..] ==> c in p; }
      assert Expand(p + t, matched, before, after) == [p[0]] + Expand(p[1..] + t, matched, before, after);
      ExpandPrefix(p[1..], t, matched, before, after);
      assert [p[0]] + (p[1..] + Expand(t, matched, before, after)) == p + Expand(t, matched, before, after);
    } else {
      assert p + t == t;
    }
  }

  /** A replacement text without `$` is inserted literally. */
  lemma ExpandLiteral(t: string, matched: string, before: string, after: string)
    requires '$' !in t
    ensures Expand(t, matched, before, after) == t
  {
    ExpandPrefix(t, [], matched, before, after);
    assert t + [] == t;
  }

  /** `$$` stands for one `$`, so a doubled dollar in the version comes out single. */
  lemma DoubledDollar(t: string, matched: string, before: string, after: string)
    requires t == "1.0$$"
    ensures Expand(t, matched, before, after) == "1.0$"
  {
    ExpandPrefix("1.0", "$$", matched, before, after);
    assert t == "1.0" + "$$";
    assert "$$"[2..] == [];
  }

  /** The text the match at `i`..`e` is replaced by. */
  function Replacement(content: string, i: nat, e: nat, version: string, date: string): string
    requires i <= e <= |content|
  {
    Expand(VersionHeader(version, date), content[i..e], content[..i], content[e..])
  }

  /** The replacement opens with the header it replaces, whatever the version holds. */
  lemma ReplacementStarts(content: string, i: nat, e: nat, version: string, date: string)
    requires i <= e <= |content|
    ensures StartsWith(Replacement(content, i, e, version, date), Header)
  {
    var p := "## [Unreleased]\n\n## [";
    var t := version + "] - " + date + "\n\n";
    assert VersionHeader(version, date) == p + t;
    assert '$' !in p;
    ExpandPrefix(p, t, content[i..e], content[..i], content[e..]);
    var r := Replacement(content, i, e, version, date);
    assert r[..|Header|] == p[..|Header|];
  }

  /** A version and a date without `$` go into the changelog literally. */
  lemma LiteralVersion(content: string, i: nat, e: nat, version: string, date: string)
    requires i <= e <= |content|
    requires '$' !in version && '$' !in date
    ensures Replacement(content, i, e, version, date) == VersionHeader(version, date)
  {
    var h := VersionHeader(version, date);
    assert h == "## [Unreleased]\n\n## [" + version + "] - " + date + "\n\n";
    assert '$' !in h;
    ExpandLiteral(h, content[i..e], content[..i], content[e..]);
  }

  /** `updateChangelog`: the rewritten content, or `None` when the pattern does not
      match and the file is left alone. */
  function UpdateChangelog(content: string, version: string, date: string): (r: Option<string>)
    ensures r.None? <==> forall j :: 0 <= j <= |content| ==> MatchEnd(content, j).None?
    ensures r.Some? ==>
              exists i, e :: FirstMatch(content, 0) == Some((i, e))
                             && r.value == content[..i] + Replacement(content, i, e, version, date) + content[e..]
  {
    match FirstMatch(content, 0)
    case None => None
    case Some((i, e)) =>
      Some(content[..i] + Replacement(content, i, e, version, date) + content[e..])
  }

  // ---------------------------------------------------------------------------
  // Properties of the rewrite
  // ---------------------------------------------------------------------------

  /** The whitespace the match consumes, and what it leaves: the consumed part after the
      header is whitespace ending in `\n`, and the rest starts with a run of whitespace
      holding no `\n`, followed by a non-whitespace character or the end. */
  lemma MatchConsumes(content: string, i: nat)
    requires i <= |content| && MatchEnd(content, i).Some?
    ensures var e := MatchEnd(content, i).value;
            && StartsWith(content[i..], Header)
            && (forall j :: i + |Header| <= j < e ==> IsSpace(content[j]))
            && content[e - 1] == '\n'
            && var rest := content[e..];
               forall j :: 0 <= j < SpaceRun(rest) ==> rest[j] != '\n'
  {
    var e := MatchEnd(content, i).value;
    var after := content[i + |Header|..];
    var n := SpaceRun(after);
    var run := after[..n];
    var k := StringUtils.LastIndexOf(run, '\n');
    assert e == i + |Header| + k + 1;
    forall j | i + |Header| <= j < e ensures IsSpace(content[j]) {
      assert content[j] == after[j - i - |Header|];
    }
    assert content[e - 1] == run[k];
    var rest := content[e..];
    assert forall j :: 0 <= j < |rest| ==> rest[j] == after[k + 1 + j];
    SpaceRunSuffix(after, k + 1);
    forall j | 0 <= j < SpaceRun(rest) ensures rest[j] != '\n' {
      assert run[k + 1 + j] == rest[j];
      assert run[k + 1 + j] in run[k + 1..];
    }
  }

  /** Inside a whitespace run, the run of a suffix is the rest of the run. */
  lemma {:induction false} SpaceRunSuffix(s: string, d: nat)
    requires d <= SpaceRun(s)
    ensures SpaceRun(s[d..]) == SpaceRun(s) - d
    decreases d
  {
    if d > 0 {
      assert s[1..][d - 1..] == s[d..];
      SpaceRunSuffix(s[1..], d - 1);
    }
  }

  /** The rewrite keeps everything before the match and everything after it, and puts
      the new section right under the header. */
  lemma UpdateFrame(content: string, version: string, date: string)
    requires UpdateChangelog(content, version, date).Some?
    ensures var r := UpdateChangelog(content, version, date).value;
            var (i, e) := FirstMatch(content, 0).value;
            && r[..i] == content[..i]
            && StartsWith(r[i..], Header)
            && EndsWith(r, content[e..])
            && |r| == |content| - (e - i) + |Replacement(content, i, e, version, date)|
  {
    var (i, e) := FirstMatch(content, 0).value;
    ReplacementStarts(content, i, e, version, date);
    SpliceFrame(content[..i], Replacement(content, i, e, version, date), content[e..]);
  }

  /** Putting the version header between two pieces keeps both pieces and starts the
      middle with the header. */
  lemma SpliceFrame(before: string, h: string, after: string)
    requires StartsWith(h, Header)
    ensures var r := before + h + after;
            && r[..|before|] == before
            && StartsWith(r[|before|..], Header)
            && EndsWith(r, after)
  {
    var r := before + h + after;
    assert r[..|before|] == before;
    assert r[|before|..][..|Header|] == h[..|Header|];
    assert r[|r| - |after|..] == after;
  }

  /** The header directly followed by a line feed and then text: the line feed is
      consumed and the new section goes in front of the text. */
  lemma HeaderThenNewline(rest: string, version: string, date: string)
    requires rest == [] || !IsSpace(rest[0])
    ensures UpdateChangelog(Header + "\n" + rest, version, date)
            == Some(Expand(VersionHeader(version, date), Header + "\n", [], rest) + rest)
  {
    var content := Header + "\n" + rest;
    var m := |Header| + 1;
    HeaderNewlineMatch(content, rest);
    MatchAtStart(content, m, version, date);
  }

  /** A match at the very start is replaced and the rest follows it. */
  lemma MatchAtStart(content: string, m: nat, version: string, date: string)
    requires m <= |content| && FirstMatch(content, 0) == Some((0, m))
    ensures UpdateChangelog(content, version, date)
            == Some(Expand(VersionHeader(version, date), content[..m], [], content[m..]) + content[m..])
  {
    var x := Replacement(content, 0, m, version, date);
    assert content[..0] == [] && content[0..m] == content[..m];
    assert content[..0] + x + content[m..] == x + content[m..];
  }

  /** The match of a header directly followed by a line feed is the header and that
      line feed. */
  lemma HeaderNewlineMatch(content: string, rest: string)
    requires content == Header + "\n" + rest
    requires rest == [] || !IsSpace(rest[0])
    ensures FirstMatch(content, 0) == Some((0, |Header| + 1))
    ensures content[..|Header| + 1] == Header + "\n" && content[|Header| + 1..] == rest
  {
    assert content[0..] == content;
    assert StartsWith(content, Header) by { assert content[..|Header|] == Header; }
    var after := content[|Header|..];
    assert after == "\n" + rest;
    assert after[1..] == rest;
    assert SpaceRun(after) == 1;
    var run := after[..1];
    assert run == "\n";
    assert StringUtils.LastIndexOf(run, '\n') == 0;
    assert MatchEnd(content, 0) == Some(|Header| + 1);
  }

  /** The header followed by spaces and then text, with no line feed in between, is
      not a match: the changelog is left alone when no other header follows. */
  lemma HeaderWithoutNewline(gap: string, rest: string, version: string, date: string)
    requires forall j :: 0 <= j < |gap| ==> IsSpace(gap[j]) && gap[j] != '\n'
    requires rest != [] && !IsSpace(rest[0]) && '#' !in rest && '#' !in gap
    ensures UpdateChangelog(Header + gap + rest, version, date).None?
  {
    var content := Header + gap + rest;
    forall j | 0 <= j <= |content| ensures MatchEnd(content, j).None? {
      if j == 0 {
        HeaderIsNotFollowed(content, gap, rest);
      } else if j < |content| {
        NoHeaderAt(content, gap, rest, j);
      }
    }
  }

  lemma HeaderIsNotFollowed(content: string, gap: string, rest: string)
    requires content == Header + gap + rest
    requires forall j :: 0 <= j < |gap| ==> IsSpace(gap[j]) && gap[j] != '\n'
    requires rest != [] && !IsSpace(rest[0])
    ensures MatchEnd(content, 0).None?
  {
    assert content[0..] == content;
    var after := content[|Header|..];
    assert after == gap + rest;
    assert forall j :: 0 <= j < |gap| ==> after[j] == gap[j];
    assert after[|gap|] == rest[0];
    SpaceRunOf(after, |gap|);
    var run := after[..|gap|];
    assert run == gap;
  }

  /** The whitespace run of a string whose first `n` characters are whitespace and whose
      next character is not. */
  lemma {:induction false} SpaceRunOf(s: string, n: nat)
    requires n < |s| && !IsSpace(s[n])
    requires forall j :: 0 <= j < n ==> IsSpace(s[j])
    ensures SpaceRun(s) == n
    decreases n
  {
    if n > 0 {
      SpaceRunOf(s[1..], n - 1);
    }
  }

  /** No header starts past position 0 when `#` occurs only at the header's first two
      characters. */
  lemma NoHeaderAt(content: string, gap: string, rest: string, j: nat)
    requires content == Header + gap + rest && '#' !in rest && '#' !in gap
    requires 0 < j < |content|
    ensures !StartsWith(content[j..], Header)
  {
    if j == 1 {
      assert content[2] == ' ';
      assert content[1..][1] == ' ';
    } else if j < |Header| {
      assert content[j] == Header[j];
      assert Header[j] != '#';
    } else if j < |Header| + |gap| {
      assert content[j] == gap[j - |Header|];
    } else {
      assert content[j] == rest[j - |Header| - |gap|];
    }
    assert content[j..][0] == content[j];
  }
}
