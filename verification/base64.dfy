/** Base64 as the clipboard code uses it: the alphabet of section 4 of RFC 4648,
    the shape test `/^[A-Za-z0-9+/]+=*$/`, an encoder (`buf.toString('base64')`)
    and a lenient decoder in the manner of `Buffer.from(text, 'base64')`, which
    never fails: characters outside the alphabet are skipped, decoding stops at
    the first `=`, and a trailing group of k < 4 characters yields
    floor(6k / 8) bytes. */
module Base64 {
  import opened Text
  import opened Bytes

  /** The 64 characters of the base64 alphabet (section 4 of RFC 4648). */
  predicate IsBase64Char(c: char)
  {
    IsAsciiLetter(c) || IsDigit(c) || c == '+' || c == '/'
  }

  /** The 6-bit value an alphabet character stands for. */
  function SextetOf(c: char): (v: nat)
    requires IsBase64Char(c)
    ensures v < 64
  {
    if IsAsciiUpper(c) then c as int - 'A' as int
    else if IsAsciiLower(c) then c as int - 'a' as int + 26
    else if IsDigit(c) then c as int - '0' as int + 52
    else if c == '+' then 62
    else 63
  }

  /** The alphabet character standing for a 6-bit value. */
  function CharOf(v: nat): (c: char)
    requires v < 64
    ensures IsBase64Char(c) && SextetOf(c) == v
  {
    if v < 26 then ('A' as int + v) as char
    else if v < 52 then ('a' as int + v - 26) as char
    else if v < 62 then ('0' as int + v - 52) as char
    else if v == 62 then '+'
    else '/'
  }

  predicate AllSextets(v: seq<nat>)
  {
    forall i :: 0 <= i < |v| ==> v[i] < 64
  }

  // ---------------------------------------------------------------------------
  // The shape test
  // ---------------------------------------------------------------------------

  /** The number of alphabet characters `s` starts with. */
  function LeadingAlphabet(s: string): (k: nat)
    ensures k <= |s|
    ensures forall i :: 0 <= i < k ==> IsBase64Char(s[i])
    ensures k < |s| ==> !IsBase64Char(s[k])
  {
    if s != [] && IsBase64Char(s[0]) then 1 + LeadingAlphabet(s[1..]) else 0
  }

  /** `/^[A-Za-z0-9+/]+=*$/.test(s)`: one or more alphabet characters, then only `=`. */
  predicate MatchesBase64Pattern(s: string)
  {
    var k := LeadingAlphabet(s);
    k >= 1 && forall i :: k <= i < |s| ==> s[i] == '='
  }

  // ---------------------------------------------------------------------------
  // Decoding
  // ---------------------------------------------------------------------------

  /** The 6-bit values the decoder reads: the alphabet characters before the first `=`. */
  function Sextets(s: string): (v: seq<nat>)
    ensures AllSextets(v)
  {
    if s == [] || s[0] == '=' then []
    else if IsBase64Char(s[0]) then [SextetOf(s[0])] + Sextets(s[1..])
    else Sextets(s[1..])
  }

  /** Four sextets carry three bytes; a final group of three carries two, of two carries one. */
  function DecodeSextets(v: seq<nat>): (b: seq<byte>)
    requires AllSextets(v)
  {
    if |v| >= 4 then
      [(v[0] * 4 + v[1] / 16) as byte,
       ((v[1] % 16) * 16 + v[2] / 4) as byte,
       ((v[2] % 4) * 64 + v[3]) as byte] + DecodeSextets(v[4..])
    else if |v| == 3 then
      [(v[0] * 4 + v[1] / 16) as byte, ((v[1] % 16) * 16 + v[2] / 4) as byte]
    else if |v| == 2 then
      [(v[0] * 4 + v[1] / 16) as byte]
    else []
  }

  /** `Buffer.from(s, 'base64')`. */
  function Decode(s: string): seq<byte>
  {
    DecodeSextets(Sextets(s))
  }

  // ---------------------------------------------------------------------------
  // Encoding
  // ---------------------------------------------------------------------------

  /** The sextets of a byte sequence, three bytes to four sextets, the last group padded with zero bits. */
  function EncodeSextets(b: seq<byte>): (v: seq<nat>)
    ensures AllSextets(v)
  {
    if |b| >= 3 then Group(b[0] as nat, b[1] as nat, b[2] as nat) + EncodeSextets(b[3..])
    else if |b| == 2 then Group(b[0] as nat, b[1] as nat, 0)[..3]
    else if |b| == 1 then Group(b[0] as nat, 0, 0)[..2]
    else []
  }

  /** The four sextets of three bytes. */
  function Group(x0: nat, x1: nat, x2: nat): (v: seq<nat>)
    requires x0 < 256 && x1 < 256 && x2 < 256
    ensures |v| == 4 && AllSextets(v)
  {
    assert x0 % 4 <= 3 && x1 / 16 <= 15 && x1 % 16 <= 15 && x2 / 64 <= 3;
    [x0 / 4, (x0 % 4) * 16 + x1 / 16, (x1 % 16) * 4 + x2 / 64, x2 % 64]
  }

  function CharsOf(v: seq<nat>): (s: string)
    requires AllSextets(v)
    ensures |s| == |v|
    ensures forall i :: 0 <= i < |v| ==> s[i] == CharOf(v[i])
  {
    if v == [] then [] else [CharOf(v[0])] + CharsOf(v[1..])
  }

  /** `buf.toString('base64')`: padded with `=` to a multiple of four characters. */
  function Encode(b: seq<byte>): string
  {
    var v := EncodeSextets(b);
    CharsOf(v) + Repeat('=', (4 - |v| % 4) % 4)
  }

  // ---------------------------------------------------------------------------
  // Round trip
  // ---------------------------------------------------------------------------

  /** The decoder reads back exactly the sextets an encoding wrote. */
  lemma {:induction false} SextetsOfEncoding(v: seq<nat>, pad: nat)
    requires AllSextets(v)
    ensures Sextets(CharsOf(v) + Repeat('=', pad)) == v
    decreases |v|
  {
    var s := CharsOf(v) + Repeat('=', pad);
    if v == [] {
      assert s == Repeat('=', pad);
    } else {
      assert s[0] == CharOf(v[0]);
      assert s[1..] == CharsOf(v[1..]) + Repeat('=', pad);
      SextetsOfEncoding(v[1..], pad);
    }
  }

  lemma TripleRoundTrip(x0: nat, x1: nat, x2: nat)
    requires x0 < 256 && x1 < 256 && x2 < 256
    ensures var s0, s1, s2, s3 := x0 / 4, (x0 % 4) * 16 + x1 / 16, (x1 % 16) * 4 + x2 / 64, x2 % 64;
            && s0 * 4 + s1 / 16 == x0
            && (s1 % 16) * 16 + s2 / 4 == x1
            && (s2 % 4) * 64 + s3 == x2
  {
    var s1 := (x0 % 4) * 16 + x1 / 16;
    var s2 := (x1 % 16) * 4 + x2 / 64;
    assert s1 / 16 == x0 % 4 && s1 % 16 == x1 / 16;
    assert s2 / 4 == x1 % 16 && s2 % 4 == x2 / 64;
  }

  /** Decoding the sextets of an encoding restores the bytes. */
  lemma {:induction false} DecodeEncodeSextets(b: seq<byte>)
    ensures DecodeSextets(EncodeSextets(b)) == b
    decreases |b|
  {
    var v := EncodeSextets(b);
    if |b| >= 3 {
      TripleRoundTrip(b[0] as nat, b[1] as nat, b[2] as nat);
      assert v[4..] == EncodeSextets(b[3..]);
      DecodeEncodeSextets(b[3..]);
      var d := DecodeSextets(v);
      assert d[..3] == b[..3];
      assert d == d[..3] + d[3..];
      assert b == b[..3] + b[3..];
    } else if |b| == 2 {
      TripleRoundTrip(b[0] as nat, b[1] as nat, 0);
    } else if |b| == 1 {
      TripleRoundTrip(b[0] as nat, 0, 0);
    }
  }

  /** `Buffer.from(buf.toString('base64'), 'base64')` gives back `buf`. */
  lemma DecodeEncode(b: seq<byte>)
    ensures Decode(Encode(b)) == b
  {
    var v := EncodeSextets(b);
    SextetsOfEncoding(v, (4 - |v| % 4) % 4);
    DecodeEncodeSextets(b);
  }

  /** A non-empty encoding has the shape `/^[A-Za-z0-9+/]+=*$/`. */
  lemma EncodeMatchesPattern(b: seq<byte>)
    requires b != []
    ensures MatchesBase64Pattern(Encode(b))
  {
    var v := EncodeSextets(b);
    var s := Encode(b);
    var pad := (4 - |v| % 4) % 4;
    assert forall i :: 0 <= i < |v| ==> IsBase64Char(s[i]);
    assert forall i :: |v| <= i < |s| ==> s[i] == '=';
    LeadingAlphabetOf(s, |v|);
  }

  lemma {:induction false} LeadingAlphabetOf(s: string, k: nat)
    requires k <= |s|
    requires forall i :: 0 <= i < k ==> IsBase64Char(s[i])
    requires k < |s| ==> !IsBase64Char(s[k])
    ensures LeadingAlphabet(s) == k
    decreases k
  {
    if k > 0 {
      LeadingAlphabetOf(s[1..], k - 1);
    }
  }

  /** The first byte of a decoding is fixed by the first two characters when both are in
      the alphabet. */
  lemma DecodeLeadingByte(s: string)
    requires |s| >= 2 && IsBase64Char(s[0]) && IsBase64Char(s[1])
    ensures |Decode(s)| >= 1 && Decode(s)[0] as int == SextetOf(s[0]) * 4 + SextetOf(s[1]) / 16
  {
    var v := Sextets(s);
    assert v == [SextetOf(s[0])] + Sextets(s[1..]);
    assert s[1..][0] == s[1];
    assert Sextets(s[1..]) == [SextetOf(s[1])] + Sextets(s[2..]);
    assert v[0] == SextetOf(s[0]) && v[1] == SextetOf(s[1]);
  }

  /** Whitespace is neither an alphabet character nor the padding character. */
  lemma SpaceIsSkipped(c: char)
    requires IsSpace(c)
    ensures !IsBase64Char(c) && c != '='
  {
  }

  /** Leading whitespace is skipped by the decoder. */
  lemma {:induction false} SextetsDropLeading(s: string, k: nat)
    requires k <= |s| && forall i :: 0 <= i < k ==> IsSpace(s[i])
    ensures Sextets(s[k..]) == Sextets(s)
    decreases k
  {
    if k > 0 {
      SpaceIsSkipped(s[0]);
      assert s[1..][k - 1..] == s[k..];
      SextetsDropLeading(s[1..], k - 1);
    }
  }

  /** Trailing whitespace is skipped by the decoder. */
  lemma {:induction false} SextetsDropTrailing(s: string, m: nat)
    requires m <= |s| && forall i :: m <= i < |s| ==> IsSpace(s[i])
    ensures Sextets(s[..m]) == Sextets(s)
    decreases |s|
  {
    if s == [] {
      assert s[..m] == s;
    } else if m == 0 {
      SpaceIsSkipped(s[0]);
      SextetsDropTrailing(s[1..], 0);
      assert s[1..][..0] == s[..0];
    } else {
      SextetsDropTrailing(s[1..], m - 1);
      assert s[..m][0] == s[0];
      assert s[..m][1..] == s[1..][..m - 1];
    }
  }

  /** `Buffer.from(s.trim(), 'base64')` and `Buffer.from(s, 'base64')` are the same bytes:
      the whitespace `trim` removes is skipped by the decoder anyway. */
  lemma DecodeTrim(s: string)
    ensures Decode(Trim(s)) == Decode(s)
  {
    var t := TrimStart(s);
    SextetsDropLeading(s, |s| - |t|);
    var r := TrimEnd(t);
    SextetsDropTrailing(t, |r|);
  }
}
