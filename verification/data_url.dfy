/** Recognition of image data URLs (section 3 of RFC 2397) by the regular
    expression `/^data:image\/(\w+);base64,(.+)$/` that both clipboard-text
    parsers use: a format token of one or more `\w` characters, the `;base64,`
    marker, and a non-empty payload in which `.` admits no line terminator. */
module DataUrl {
  import opened Wrappers
  import opened Text

  /** The prefix both parsers test with `startsWith` before anything else. */
  const ImagePrefix: string := "data:image/"
  const Base64Marker: string := ";base64,"

  /** A capture of the `(\w+)` group. */
  predicate IsFormatToken(f: string)
  {
    f != [] && forall i :: 0 <= i < |f| ==> IsWordChar(f[i])
  }

  /** A capture of the `(.+)` group anchored by `$` (no multiline flag). */
  predicate IsPayload(p: string)
  {
    p != [] && NoLineTerminator(p)
  }

  /** The two capture groups of a successful match. */
  datatype Parts = Parts(format: string, payload: string)

  /** The length of the longest prefix of `s` made of `\w` characters. */
  function WordRun(s: string): (k: nat)
    ensures k <= |s|
    ensures forall i :: 0 <= i < k ==> IsWordChar(s[i])
    ensures k < |s| ==> !IsWordChar(s[k])
  {
    if s != [] && IsWordChar(s[0]) then 1 + WordRun(s[1..]) else 0
  }

  lemma {:induction false} WordRunOf(s: string, k: nat)
    requires k <= |s|
    requires forall i :: 0 <= i < k ==> IsWordChar(s[i])
    requires k < |s| ==> !IsWordChar(s[k])
    ensures WordRun(s) == k
    decreases k
  {
    if k > 0 {
      WordRunOf(s[1..], k - 1);
    }
  }

  /** `text.match(/^data:image\/(\w+);base64,(.+)$/)`. Since `;` is not a `\w` character,
      the greedy `\w+` has exactly one way to succeed: the whole word run after the prefix. */
  function MatchImageUrl(s: string): (m: Option<Parts>)
    ensures m.Some? ==> s == ImagePrefix + m.value.format + Base64Marker + m.value.payload
    ensures m.Some? ==> IsFormatToken(m.value.format) && IsPayload(m.value.payload)
  {
    if !StartsWith(s, ImagePrefix) then None
    else
      var rest := s[|ImagePrefix|..];
      var k := WordRun(rest);
      var tail := rest[k..];
      if k > 0 && StartsWith(tail, Base64Marker) && IsPayload(tail[|Base64Marker|..]) then
        assert s == ImagePrefix + rest[..k] + Base64Marker + tail[|Base64Marker|..];
        Some(Parts(rest[..k], tail[|Base64Marker|..]))
      else None
  }

  /** Every well-formed image data URL is matched, and its groups are read back exactly. */
  lemma MatchImageUrlComplete(f: string, p: string)
    requires IsFormatToken(f) && IsPayload(p)
    ensures MatchImageUrl(ImagePrefix + f + Base64Marker + p) == Some(Parts(f, p))
  {
    var s := ImagePrefix + f + Base64Marker + p;
    assert s[..|ImagePrefix|] == ImagePrefix;
    var rest := s[|ImagePrefix|..];
    assert rest == f + Base64Marker + p;
    assert rest[|f|] == ';';
    WordRunOf(rest, |f|);
    assert rest[..|f|] == f;
    var tail := rest[|f|..];
    assert tail == Base64Marker + p;
    assert tail[..|Base64Marker|] == Base64Marker;
    assert tail[|Base64Marker|..] == p;
  }

  /** A matched URL always carries the prefix the parsers test first. */
  lemma MatchedHasPrefix(s: string)
    requires MatchImageUrl(s).Some?
    ensures StartsWith(s, ImagePrefix)
  {
  }
}
