/** Image formats, the magic numbers that identify them, and the image record
    the clipboard layer hands to the rest of the extension. The three sniffers
    of the code base (adapter base class, text-clipboard service, clipboard
    manager) each consult their own subset of this table; the table is the
    reference they are compared against. */
module Signatures {
  import opened Wrappers
  import opened Bytes

  /** The formats the clipboard layer can name. */
  datatype ImageFormat = Png | Jpg | Gif | Bmp | Webp

  /** The string a format is reported as (`'png' | 'jpg' | 'gif' | 'bmp' | 'webp'`). */
  function FormatName(f: ImageFormat): (s: string)
    ensures |s| >= 3
  {
    match f
    case Png => "png"
    case Jpg => "jpg"
    case Gif => "gif"
    case Bmp => "bmp"
    case Webp => "webp"
  }

  /** An image as the clipboard layer returns it: its bytes and a format name.
      The format is a free string because a data URL's format is taken verbatim. */
  datatype ImageData = ImageData(buffer: seq<byte>, format: string)

  // ---------------------------------------------------------------------------
  // Magic numbers
  // ---------------------------------------------------------------------------

  /** The first four bytes of the PNG signature (section 5.2 of the PNG specification). */
  const PngMagic: seq<byte> := [0x89, 0x50, 0x4E, 0x47]
  /** JPEG start-of-image marker followed by the first byte of the next marker. */
  const JpegMagic: seq<byte> := [0xFF, 0xD8, 0xFF]
  /** `GIF`, the start of the GIF header (section 17 of GIF89a). */
  const GifMagic: seq<byte> := [0x47, 0x49, 0x46]
  /** `GIF8`, common to the `GIF87a` and `GIF89a` headers. */
  const Gif8Magic: seq<byte> := [0x47, 0x49, 0x46, 0x38]
  /** `BM`, the BMP file header. */
  const BmpMagic: seq<byte> := [0x42, 0x4D]
  /** `RIFF`, the container tag of a WebP file. */
  const RiffTag: seq<byte> := [0x52, 0x49, 0x46, 0x46]
  /** `WEBP`, the form type at offset 8 of a WebP file. */
  const WebpTag: seq<byte> := [0x57, 0x45, 0x42, 0x50]

  /** One entry of a signature table: every (offset, bytes) part must be present. */
  datatype Signature = Signature(format: ImageFormat, parts: seq<(nat, seq<byte>)>)

  predicate Matches(b: seq<byte>, sig: Signature)
  {
    forall k :: 0 <= k < |sig.parts| ==> HasAt(b, sig.parts[k].0, sig.parts[k].1)
  }

  /** The format of the first entry of `table` that `b` matches, if any. */
  function FirstMatch(table: seq<Signature>, b: seq<byte>): (r: Option<ImageFormat>)
    ensures r == None <==> forall k :: 0 <= k < |table| ==> !Matches(b, table[k])
    ensures r.Some? ==> exists k :: 0 <= k < |table| && Matches(b, table[k]) && table[k].format == r.value
  {
    if table == [] then None
    else if Matches(b, table[0]) then Some(table[0].format)
    else
      var r := FirstMatch(table[1..], b);
      assert forall k :: 1 <= k < |table| ==> table[k] == table[1..][k - 1];
      r
  }

  const PngEntry := Signature(Png, [(0, PngMagic)])
  const JpegEntry := Signature(Jpg, [(0, JpegMagic)])
  const GifEntry := Signature(Gif, [(0, GifMagic)])
  const Gif8Entry := Signature(Gif, [(0, Gif8Magic)])
  const BmpEntry := Signature(Bmp, [(0, BmpMagic)])
  const WebpEntry := Signature(Webp, [(0, RiffTag), (8, WebpTag)])

  /** The first match of a table is decided by its head entry, then by the rest. */
  lemma FirstMatchCons(e: Signature, rest: seq<Signature>, b: seq<byte>)
    ensures FirstMatch([e] + rest, b) == if Matches(b, e) then Some(e.format) else FirstMatch(rest, b)
  {
    assert ([e] + rest)[1..] == rest;
  }

  /** A one-part signature matches when its bytes are at its offset. */
  lemma MatchesOne(b: seq<byte>, f: ImageFormat, at: nat, m: seq<byte>)
    ensures Matches(b, Signature(f, [(at, m)])) <==> HasAt(b, at, m)
  {
    var sig := Signature(f, [(at, m)]);
    assert sig.parts[0] == (at, m);
  }

  /** A two-part signature matches when both parts are present. */
  lemma MatchesTwo(b: seq<byte>, f: ImageFormat, at0: nat, m0: seq<byte>, at1: nat, m1: seq<byte>)
    ensures Matches(b, Signature(f, [(at0, m0), (at1, m1)])) <==> HasAt(b, at0, m0) && HasAt(b, at1, m1)
  {
    var sig := Signature(f, [(at0, m0), (at1, m1)]);
    assert sig.parts[0] == (at0, m0) && sig.parts[1] == (at1, m1);
  }

  /** `HasAt` byte by byte. */
  lemma HasAtBytes(b: seq<byte>, at: nat, sig: seq<byte>)
    ensures HasAt(b, at, sig) <==> at + |sig| <= |b| && forall i :: 0 <= i < |sig| ==> b[at + i] == sig[i]
  {
    if at + |sig| <= |b| && forall i :: 0 <= i < |sig| ==> b[at + i] == sig[i] {
      assert b[at..at + |sig|] == sig;
    }
  }

  /** Each entry of the signature table, spelled out byte by byte. */
  lemma EntryBytes(b: seq<byte>)
    requires |b| >= 4
    ensures Matches(b, PngEntry) <==> b[0] == 0x89 && b[1] == 0x50 && b[2] == 0x4E && b[3] == 0x47
    ensures Matches(b, JpegEntry) <==> b[0] == 0xFF && b[1] == 0xD8 && b[2] == 0xFF
    ensures Matches(b, GifEntry) <==> b[0] == 0x47 && b[1] == 0x49 && b[2] == 0x46
    ensures Matches(b, Gif8Entry) <==> b[0] == 0x47 && b[1] == 0x49 && b[2] == 0x46 && b[3] == 0x38
    ensures Matches(b, BmpEntry) <==> b[0] == 0x42 && b[1] == 0x4D
    ensures Matches(b, WebpEntry) <==> b[0] == 0x52 && b[1] == 0x49 && b[2] == 0x46 && b[3] == 0x46
                                       && |b| >= 12 && b[8] == 0x57 && b[9] == 0x45 && b[10] == 0x42 && b[11] == 0x50
  {
    FirstEntriesBytes(b);
    GifEntriesBytes(b);
    LastEntriesBytes(b);
  }

  lemma FirstEntriesBytes(b: seq<byte>)
    requires |b| >= 4
    ensures Matches(b, PngEntry) <==> b[0] == 0x89 && b[1] == 0x50 && b[2] == 0x4E && b[3] == 0x47
    ensures Matches(b, JpegEntry) <==> b[0] == 0xFF && b[1] == 0xD8 && b[2] == 0xFF
  {
    MatchesOne(b, Png, 0, PngMagic);
    MatchesOne(b, Jpg, 0, JpegMagic);
    HasAtBytes(b, 0, PngMagic);
    HasAtBytes(b, 0, JpegMagic);
  }

  lemma GifEntriesBytes(b: seq<byte>)
    requires |b| >= 4
    ensures Matches(b, GifEntry) <==> b[0] == 0x47 && b[1] == 0x49 && b[2] == 0x46
    ensures Matches(b, Gif8Entry) <==> b[0] == 0x47 && b[1] == 0x49 && b[2] == 0x46 && b[3] == 0x38
  {
    MatchesOne(b, Gif, 0, GifMagic);
    MatchesOne(b, Gif, 0, Gif8Magic);
    HasAtBytes(b, 0, GifMagic);
    HasAtBytes(b, 0, Gif8Magic);
  }

  lemma LastEntriesBytes(b: seq<byte>)
    requires |b| >= 4
    ensures Matches(b, BmpEntry) <==> b[0] == 0x42 && b[1] == 0x4D
    ensures Matches(b, WebpEntry) <==> b[0] == 0x52 && b[1] == 0x49 && b[2] == 0x46 && b[3] == 0x46
                                       && |b| >= 12 && b[8] == 0x57 && b[9] == 0x45 && b[10] == 0x42 && b[11] == 0x50
  {
    MatchesOne(b, Bmp, 0, BmpMagic);
    HasAtBytes(b, 0, BmpMagic);
    WebpBytes(b);
  }

  lemma WebpBytes(b: seq<byte>)
    requires |b| >= 4
    ensures Matches(b, WebpEntry) <==> b[0] == 0x52 && b[1] == 0x49 && b[2] == 0x46 && b[3] == 0x46
                                       && |b| >= 12 && b[8] == 0x57 && b[9] == 0x45 && b[10] == 0x42 && b[11] == 0x50
  {
    MatchesTwo(b, Webp, 0, RiffTag, 8, WebpTag);
    HasAtBytes(b, 0, RiffTag);
    HasAtBytes(b, 8, WebpTag);
    assert HasAt(b, 0, RiffTag) <==> b[0] == 0x52 && b[1] == 0x49 && b[2] == 0x46 && b[3] == 0x46;
    assert HasAt(b, 8, WebpTag) <==> |b| >= 12 && b[8] == 0x57 && b[9] == 0x45 && b[10] == 0x42 && b[11] == 0x50;
  }
}
