/** The text-clipboard image reader `ClipboardService`: a clipboard text is an
    image when it is a `data:image/` URL, or bare base64 whose decoding carries
    an image signature. Its private sniffer requires `GIF8` for GIF, unlike the
    adapter base class, and knows WebP. The clipboard read is an input that
    either returns the text or throws. */
module ClipboardService {
  import opened Wrappers
  import opened Text
  import opened Bytes
  import opened Base64
  import opened Signatures
  import opened DataUrl

  /** The signatures this sniffer knows, in the order it tests them. */
  const Table: seq<Signature> := [PngEntry, JpegEntry, Gif8Entry, BmpEntry, WebpEntry]

  /** `isImageBuffer` of the service: GIF needs the fourth byte `8`. */
  function IsImageBuffer(b: seq<byte>): (r: bool)
    ensures r ==> |b| >= 4
    ensures |b| >= 4 && b[0] == 0x89 && b[1] == 0x50 && b[2] == 0x4E && b[3] == 0x47 ==> r
  {
    if |b| < 4 then false
    else if b[0] == 0x89 && b[1] == 0x50 && b[2] == 0x4E && b[3] == 0x47 then true
    else if b[0] == 0xFF && b[1] == 0xD8 && b[2] == 0xFF then true
    else if b[0] == 0x47 && b[1] == 0x49 && b[2] == 0x46 && b[3] == 0x38 then true
    else if b[0] == 0x42 && b[1] == 0x4D then true
    else if b[0] == 0x52 && b[1] == 0x49 && b[2] == 0x46 && b[3] == 0x46 then
      |b| >= 12 && b[8] == 0x57 && b[9] == 0x45 && b[10] == 0x42 && b[11] == 0x50
    else false
  }

  /** `detectImageFormat` of the service. */
  function DetectImageFormat(b: seq<byte>): (f: ImageFormat)
    ensures |b| < 4 ==> f == Png
  {
    if |b| < 4 then Png
    else if b[0] == 0x89 && b[1] == 0x50 && b[2] == 0x4E && b[3] == 0x47 then Png
    else if b[0] == 0xFF && b[1] == 0xD8 && b[2] == 0xFF then Jpg
    else if b[0] == 0x47 && b[1] == 0x49 && b[2] == 0x46 && b[3] == 0x38 then Gif
    else if b[0] == 0x42 && b[1] == 0x4D then Bmp
    else if b[0] == 0x52 && b[1] == 0x49 && b[2] == 0x46 && b[3] == 0x46
            && |b| >= 12 && b[8] == 0x57 && b[9] == 0x45 && b[10] == 0x42 && b[11] == 0x50 then Webp
    else Png
  }

  lemma TableSteps(b: seq<byte>)
    ensures FirstMatch(Table, b) ==
      if Matches(b, PngEntry) then Some(Png)
      else if Matches(b, JpegEntry) then Some(Jpg)
      else if Matches(b, Gif8Entry) then Some(Gif)
      else if Matches(b, BmpEntry) then Some(Bmp)
      else if Matches(b, WebpEntry) then Some(Webp)
      else None
  {
    FirstMatchCons(PngEntry, [JpegEntry, Gif8Entry, BmpEntry, WebpEntry], b);
    FirstMatchCons(JpegEntry, [Gif8Entry, BmpEntry, WebpEntry], b);
    FirstMatchCons(Gif8Entry, [BmpEntry, WebpEntry], b);
    FirstMatchCons(BmpEntry, [WebpEntry], b);
    FirstMatchCons(WebpEntry, [], b);
    assert Table == [PngEntry] + [JpegEntry, Gif8Entry, BmpEntry, WebpEntry];
    assert [JpegEntry, Gif8Entry, BmpEntry, WebpEntry] == [JpegEntry] + [Gif8Entry, BmpEntry, WebpEntry];
    assert [Gif8Entry, BmpEntry, WebpEntry] == [Gif8Entry] + [BmpEntry, WebpEntry];
    assert [BmpEntry, WebpEntry] == [BmpEntry] + [WebpEntry];
    assert [WebpEntry] == [WebpEntry] + [];
  }

  /** A buffer is an image exactly when it has four bytes and matches an entry of the table. */
  lemma IsImageBufferIffTable(b: seq<byte>)
    ensures IsImageBuffer(b) <==> |b| >= 4 && FirstMatch(Table, b).Some?
  {
    if |b| >= 4 {
      EntryBytes(b);
      TableSteps(b);
    }
  }

  /** The detected format is the first entry of the table that matches, `png` otherwise. */
  lemma DetectIsFirstMatch(b: seq<byte>)
    requires |b| >= 4
    ensures DetectImageFormat(b) == (match FirstMatch(Table, b) case Some(f) => f case None => Png)
  {
    EntryBytes(b);
    TableSteps(b);
  }

  lemma DetectImpliesImage(b: seq<byte>)
    ensures DetectImageFormat(b) != Png ==> IsImageBuffer(b)
    ensures !IsImageBuffer(b) ==> DetectImageFormat(b) == Png
  {
  }

  // ---------------------------------------------------------------------------
  // Clipboard text
  // ---------------------------------------------------------------------------

  /** `isImageData`: empty text is not an image; any `data:image/` text is, whatever follows;
      other text must look like base64 once whitespace is removed and decode to an image. */
  function IsImageData(text: string): (r: bool)
    ensures text == [] ==> !r
    ensures text != [] && StartsWith(text, ImagePrefix) ==> r
    ensures !StartsWith(text, ImagePrefix) ==>
              (r <==> text != [] && MatchesBase64Pattern(RemoveSpaces(text)) && IsImageBuffer(Decode(text)))
  {
    if text == [] then false
    else if StartsWith(text, ImagePrefix) then true
    else MatchesBase64Pattern(RemoveSpaces(text)) && IsImageBuffer(Decode(text))
  }

  /** `parseImageData`: a data URL must match the full pattern, and its format is copied
      verbatim; bare base64 is decoded after trimming and its format detected. Either way
      the bytes must pass the sniffer. */
  function ParseImageData(text: string): (r: Option<ImageData>)
    ensures r.Some? ==> IsImageBuffer(r.value.buffer)
    ensures r.Some? && StartsWith(text, ImagePrefix) ==>
              MatchImageUrl(text).Some? && r.value.format == MatchImageUrl(text).value.format
              && r.value.buffer == Decode(MatchImageUrl(text).value.payload)
    ensures !StartsWith(text, ImagePrefix) ==>
              var b := Decode(Trim(text));
              r == (if IsImageBuffer(b) then Some(ImageData(b, FormatName(DetectImageFormat(b)))) else None)
  {
    if StartsWith(text, ImagePrefix) then
      match MatchImageUrl(text)
      case None => None
      case Some(parts) =>
        var b := Decode(parts.payload);
        if IsImageBuffer(b) then Some(ImageData(b, parts.format)) else None
    else
      var b := Decode(Trim(text));
      if IsImageBuffer(b) then Some(ImageData(b, FormatName(DetectImageFormat(b)))) else None
  }

  /** `hasImage`: a failed read is "no image", never an exception. */
  function HasImage(read: Attempt<string>): (r: bool)
    ensures read.Threw? ==> !r
    ensures read.Returned? ==> (r <==> IsImageData(read.value))
  {
    match read
    case Threw(_) => false
    case Returned(text) => IsImageData(text)
  }

  /** `getImage`: text that `isImageData` rejects is not parsed. Bare base64 gives an image
      exactly when `isImageData` accepts it, with the decoded bytes and their detected
      format; a data URL gives one exactly when the full pattern matches and its payload
      decodes to an image, with the URL's format. */
  function GetImage(read: Attempt<string>): (r: Option<ImageData>)
    ensures read.Threw? ==> r == None
    ensures r.Some? ==> IsImageBuffer(r.value.buffer)
    ensures read.Returned? && !StartsWith(read.value, ImagePrefix) ==>
              var b := Decode(read.value);
              && (r.Some? <==> IsImageData(read.value))
              && (r.Some? ==> r.value == ImageData(b, FormatName(DetectImageFormat(b))))
    ensures read.Returned? && StartsWith(read.value, ImagePrefix) ==>
              var m := MatchImageUrl(read.value);
              && (r.Some? <==> m.Some? && IsImageBuffer(Decode(m.value.payload)))
              && (r.Some? ==> r.value == ImageData(Decode(m.value.payload), m.value.format))
  {
    match read
    case Threw(_) => None
    case Returned(text) =>
      DecodeTrim(text);
      if IsImageData(text) then ParseImageData(text) else None
  }

  /** An image returned by `getImage` was announced by `hasImage`. */
  lemma GetImpliesHas(read: Attempt<string>)
    ensures GetImage(read).Some? ==> HasImage(read)
  {
  }

  /** Away from data URLs the two operations agree: `getImage` returns an image exactly
      when `hasImage` announces one. */
  lemma HasIffGetOnBase64(text: string)
    requires !StartsWith(text, ImagePrefix)
    ensures HasImage(Returned(text)) <==> GetImage(Returned(text)).Some?
  {
  }

  /** A data URL's format is reported verbatim, e.g. `jpeg` rather than `jpg`, when its payload
      decodes to an image. */
  lemma DataUrlFormatVerbatim(f: string, p: string)
    requires IsFormatToken(f) && IsPayload(p)
    requires IsImageBuffer(Decode(p))
    ensures GetImage(Returned(ImagePrefix + f + Base64Marker + p)) == Some(ImageData(Decode(p), f))
  {
    var s := ImagePrefix + f + Base64Marker + p;
    MatchImageUrlComplete(f, p);
    StartsWithAppend(ImagePrefix, f + Base64Marker + p);
    assert s == ImagePrefix + (f + Base64Marker + p);
  }

  /** `hasImage` and `getImage` disagree on a data URL with an empty payload: the first
      only looks at the prefix, the second needs the full pattern to match. */
  lemma MalformedDataUrl(s: string)
    requires s == "data:image/png;base64,"
    ensures HasImage(Returned(s)) && GetImage(Returned(s)) == None
  {
    assert s == ImagePrefix + "png;base64,";
    StartsWithAppend(ImagePrefix, "png;base64,");
  }

  /** Plain text that happens to consist of base64 characters is not an image: `Hello World`
      decodes to a first byte of 0x1D, which starts no signature. */
  lemma HelloWorldIsNotImage(s: string)
    requires s == "Hello World"
    ensures !HasImage(Returned(s))
  {
    assert s[0] == 'H' && s[1] == 'e';
    DecodeLeadingByte(s);
    assert Decode(s)[0] == 0x1D;
  }
}
