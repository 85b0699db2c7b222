/** The byte sniffer shared by the platform adapters (`BasePlatformClipboard`):
    five formats, GIF recognised on the three bytes `GIF`, WebP on `RIFF`
    with `WEBP` at offset 8. */
module BaseClipboard {
  import opened Wrappers
  import opened Bytes
  import opened Signatures

  /** The signatures this sniffer knows, in the order it tests them. */
  const Table: seq<Signature> := [PngEntry, JpegEntry, GifEntry, BmpEntry, WebpEntry]

  /** `isImageBuffer`, byte comparison by byte comparison. */
  function IsImageBuffer(b: seq<byte>): (r: bool)
    ensures r ==> |b| >= 4
    ensures |b| >= 4 && b[0] == 0x42 && b[1] == 0x4D ==> r
  {
    if |b| < 4 then false
    else if b[0] == 0x89 && b[1] == 0x50 && b[2] == 0x4E && b[3] == 0x47 then true
    else if b[0] == 0xFF && b[1] == 0xD8 && b[2] == 0xFF then true
    else if b[0] == 0x47 && b[1] == 0x49 && b[2] == 0x46 then true
    else if b[0] == 0x42 && b[1] == 0x4D then true
    else if b[0] == 0x52 && b[1] == 0x49 && b[2] == 0x46 && b[3] == 0x46 then
      |b| >= 12 && b[8] == 0x57 && b[9] == 0x45 && b[10] == 0x42 && b[11] == 0x50
    else false
  }

  /** `detectImageFormat`: the first matching signature, `png` when none does. */
  function DetectImageFormat(b: seq<byte>): (f: ImageFormat)
    ensures |b| < 4 ==> f == Png
  {
    if |b| < 4 then Png
    else if b[0] == 0x89 && b[1] == 0x50 && b[2] == 0x4E && b[3] == 0x47 then Png
    else if b[0] == 0xFF && b[1] == 0xD8 && b[2] == 0xFF then Jpg
    else if b[0] == 0x47 && b[1] == 0x49 && b[2] == 0x46 then Gif
    else if b[0] == 0x42 && b[1] == 0x4D then Bmp
    else if b[0] == 0x52 && b[1] == 0x49 && b[2] == 0x46 && b[3] == 0x46
            && |b| >= 12 && b[8] == 0x57 && b[9] == 0x45 && b[10] == 0x42 && b[11] == 0x50 then Webp
    else Png
  }

  /** A buffer is an image exactly when it has at least four bytes and matches an entry of the table. */
  lemma IsImageBufferIffTable(b: seq<byte>)
    ensures IsImageBuffer(b) <==> |b| >= 4 && FirstMatch(Table, b).Some?
  {
    if |b| >= 4 {
      EntryBytes(b);
      TableSteps(b);
    }
  }

  /** The detected format is the first entry of the table that matches, `png` otherwise. */
  lemma DetectIsFirstMatch(b: seq<byte>)
    requires |b| >= 4
    ensures DetectImageFormat(b) == (match FirstMatch(Table, b) case Some(f) => f case None => Png)
  {
    EntryBytes(b);
    TableSteps(b);
  }

  /** `FirstMatch` over this table, one entry at a time. */
  lemma TableSteps(b: seq<byte>)
    ensures FirstMatch(Table, b) ==
      if Matches(b, PngEntry) then Some(Png)
      else if Matches(b, JpegEntry) then Some(Jpg)
      else if Matches(b, GifEntry) then Some(Gif)
      else if Matches(b, BmpEntry) then Some(Bmp)
      else if Matches(b, WebpEntry) then Some(Webp)
      else None
  {
    FirstMatchCons(PngEntry, [JpegEntry, GifEntry, BmpEntry, WebpEntry], b);
    FirstMatchCons(JpegEntry, [GifEntry, BmpEntry, WebpEntry], b);
    FirstMatchCons(GifEntry, [BmpEntry, WebpEntry], b);
    FirstMatchCons(BmpEntry, [WebpEntry], b);
    FirstMatchCons(WebpEntry, [], b);
    assert Table == [PngEntry] + [JpegEntry, GifEntry, BmpEntry, WebpEntry];
    assert [JpegEntry, GifEntry, BmpEntry, WebpEntry] == [JpegEntry] + [GifEntry, BmpEntry, WebpEntry];
    assert [GifEntry, BmpEntry, WebpEntry] == [GifEntry] + [BmpEntry, WebpEntry];
    assert [BmpEntry, WebpEntry] == [BmpEntry] + [WebpEntry];
    assert [WebpEntry] == [WebpEntry] + [];
  }

  /** Detection and classification agree: a format other than `png` is only reported for images,
      and a buffer that is not an image is reported as `png`. */
  lemma DetectImpliesImage(b: seq<byte>)
    ensures DetectImageFormat(b) != Png ==> IsImageBuffer(b)
    ensures !IsImageBuffer(b) ==> DetectImageFormat(b) == Png
  {
  }

  /** A `RIFF` container without the `WEBP` form type, or cut short before offset 12,
      is neither an image nor a WebP. */
  lemma RiffWithoutWebp(b: seq<byte>)
    requires HasPrefix(b, RiffTag)
    requires |b| < 12 || !HasAt(b, 8, WebpTag)
    ensures !IsImageBuffer(b) && DetectImageFormat(b) == Png
  {
    if |b| >= 4 {
      EntryBytes(b);
      HasAtBytes(b, 0, RiffTag);
    }
  }
}
