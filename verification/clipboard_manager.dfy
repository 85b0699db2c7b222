/** `ClipboardManager`: asks the platform adapter first and falls back to the
    text clipboard, with a third private sniffer (no WebP; format detection on
    two bytes only), and picks the adapter once at construction: WSL first,
    then by operating system. Adapter answers, the text-clipboard read and the
    environment probes are inputs. */
module ClipboardManager {
  import opened Wrappers
  import opened Text
  import opened Bytes
  import opened Base64
  import opened Signatures
  import opened DataUrl

  /** The signatures `isImageBuffer` knows here, in order: no WebP. */
  const Table: seq<Signature> := [PngEntry, JpegEntry, GifEntry, BmpEntry]

  /** `isImageBuffer` of the manager. */
  function IsImageBuffer(b: seq<byte>): (r: bool)
    ensures r ==> |b| >= 4
    ensures r ==> !(b[0] == 0x52 && b[1] == 0x49)
  {
    if |b| < 4 then false
    else if b[0] == 0x89 && b[1] == 0x50 && b[2] == 0x4E && b[3] == 0x47 then true
    else if b[0] == 0xFF && b[1] == 0xD8 && b[2] == 0xFF then true
    else if b[0] == 0x47 && b[1] == 0x49 && b[2] == 0x46 then true
    else if b[0] == 0x42 && b[1] == 0x4D then true
    else false
  }

  /** `detectImageFormat` of the manager: decided by the first two bytes alone. */
  function DetectImageFormat(b: seq<byte>): (f: ImageFormat)
    ensures f != Webp
    ensures |b| < 4 ==> f == Png
  {
    if |b| < 4 then Png
    else if b[0] == 0x89 && b[1] == 0x50 then Png
    else if b[0] == 0xFF && b[1] == 0xD8 then Jpg
    else if b[0] == 0x47 && b[1] == 0x49 then Gif
    else if b[0] == 0x42 && b[1] == 0x4D then Bmp
    else Png
  }

  lemma TableSteps(b: seq<byte>)
    ensures FirstMatch(Table, b) ==
      if Matches(b, PngEntry) then Some(Png)
      else if Matches(b, JpegEntry) then Some(Jpg)
      else if Matches(b, GifEntry) then Some(Gif)
      else if Matches(b, BmpEntry) then Some(Bmp)
      else None
  {
    FirstMatchCons(PngEntry, [JpegEntry, GifEntry, BmpEntry], b);
    FirstMatchCons(JpegEntry, [GifEntry, BmpEntry], b);
    FirstMatchCons(GifEntry, [BmpEntry], b);
    FirstMatchCons(BmpEntry, [], b);
    assert Table == [PngEntry] + [JpegEntry, GifEntry, BmpEntry];
    assert [JpegEntry, GifEntry, BmpEntry] == [JpegEntry] + [GifEntry, BmpEntry];
    assert [GifEntry, BmpEntry] == [GifEntry] + [BmpEntry];
    assert [BmpEntry] == [BmpEntry] + [];
  }

  /** A buffer is an image exactly when it has four bytes and matches one of the four entries. */
  lemma IsImageBufferIffTable(b: seq<byte>)
    ensures IsImageBuffer(b) <==> |b| >= 4 && FirstMatch(Table, b).Some?
  {
    if |b| >= 4 {
      EntryBytes(b);
      TableSteps(b);
    }
  }

  /** On an image, the two-byte detection agrees with the first matching entry. */
  lemma DetectAgreesOnImages(b: seq<byte>)
    requires IsImageBuffer(b)
    ensures FirstMatch(Table, b) == Some(DetectImageFormat(b))
  {
    EntryBytes(b);
    TableSteps(b);
  }

  /** A WebP file is not an image to this sniffer. */
  lemma WebpRejected(b: seq<byte>)
    requires HasPrefix(b, RiffTag)
    ensures !IsImageBuffer(b)
  {
    HasAtBytes(b, 0, RiffTag);
  }

  // ---------------------------------------------------------------------------
  // Clipboard text
  // ---------------------------------------------------------------------------

  /** `isBase64Image`: empty text is not an image, a `data:image/` prefix is, and anything
      else is decoded after trimming and sniffed. There is no shape test on the text. */
  function IsBase64Image(text: string): (r: bool)
    ensures text == [] ==> !r
    ensures text != [] && StartsWith(text, ImagePrefix) ==> r
    ensures !StartsWith(text, ImagePrefix) ==> (r <==> text != [] && IsImageBuffer(Decode(Trim(text))))
  {
    if text == [] then false
    else if StartsWith(text, ImagePrefix) then true
    else IsImageBuffer(Decode(Trim(text)))
  }

  /** `parseBase64Image`: a data URL must match the full pattern and keeps its format verbatim,
      without looking at the bytes; anything else is decoded after trimming and its format
      detected, again without a signature check. */
  function ParseBase64Image(text: string): (r: Option<ImageData>)
    ensures StartsWith(text, ImagePrefix) ==>
              (r.Some? <==> MatchImageUrl(text).Some?)
              && (r.Some? ==> r.value == ImageData(Decode(MatchImageUrl(text).value.payload), MatchImageUrl(text).value.format))
    ensures !StartsWith(text, ImagePrefix) ==>
              r.Some? && r.value.buffer == Decode(Trim(text)) && r.value.format != "webp"
  {
    if StartsWith(text, ImagePrefix) then
      match MatchImageUrl(text)
      case None => None
      case Some(parts) => Some(ImageData(Decode(parts.payload), parts.format))
    else
      var b := Decode(Trim(text));
      Some(ImageData(b, FormatName(DetectImageFormat(b))))
  }

  /** Whether the text clipboard was consulted, alongside the answer. */
  datatype Answer<+T> = Answer(value: T, textRead: bool)

  /** `hasImage`: the text clipboard is read only when the adapter answered `false`; the answer
      is the adapter's or the text test's; an exception anywhere is "no image". */
  function HasImage(platform: Attempt<bool>, read: Attempt<string>): (r: Answer<bool>)
    ensures r.textRead <==> platform == Returned(false)
    ensures platform.Threw? ==> !r.value
    ensures platform == Returned(true) ==> r.value
    ensures platform == Returned(false) ==> (r.value <==> read.Returned? && IsBase64Image(read.value))
  {
    match platform
    case Threw(_) => Answer(false, false)
    case Returned(true) => Answer(true, false)
    case Returned(false) =>
      match read
      case Threw(_) => Answer(false, true)
      case Returned(text) => Answer(IsBase64Image(text), true)
  }

  /** `getImage`: the adapter's image when it has one; the text clipboard only on `null`. */
  function GetImage(platform: Attempt<Option<ImageData>>, read: Attempt<string>): (r: Answer<Option<ImageData>>)
    ensures r.textRead <==> platform == Returned(None)
    ensures platform.Threw? ==> r.value == None
    ensures platform.Returned? && platform.value.Some? ==> r.value == platform.value
    ensures platform == Returned(None) && r.value.Some? ==>
              read.Returned? && IsBase64Image(read.value) && r.value == ParseBase64Image(read.value)
    ensures platform == Returned(None) && read.Returned? && IsBase64Image(read.value) ==>
              r.value == ParseBase64Image(read.value)
    ensures platform == Returned(None) && read.Threw? ==> r.value == None
  {
    match platform
    case Threw(_) => Answer(None, false)
    case Returned(Some(image)) => Answer(Some(image), false)
    case Returned(None) =>
      match read
      case Threw(_) => Answer(None, true)
      case Returned(text) => Answer(if IsBase64Image(text) then ParseBase64Image(text) else None, true)
  }

  /** With the adapter silent, the text fallback returns an image exactly when `hasImage`
      announces one, except for a data URL that fails the full pattern. */
  lemma FallbackAgreesWithHas(text: string)
    ensures GetImage(Returned(None), Returned(text)).value.Some? <==>
              HasImage(Returned(false), Returned(text)).value
              && (StartsWith(text, ImagePrefix) ==> MatchImageUrl(text).Some?)
  {
  }

  /** With the adapter silent, a data URL that fails the full pattern is announced by `hasImage`
      but `getImage` returns nothing. */
  lemma AnnouncedButNotParsed(text: string)
    requires text != [] && StartsWith(text, ImagePrefix) && MatchImageUrl(text) == None
    ensures HasImage(Returned(false), Returned(text)).value
    ensures GetImage(Returned(None), Returned(text)).value == None
  {
  }

  // ---------------------------------------------------------------------------
  // Adapter selection
  // ---------------------------------------------------------------------------

  /** The platform adapters. */
  datatype AdapterKind = WslAdapter | WindowsAdapter | MacAdapter | LinuxAdapter

  /** What the selection looks at: two environment variables, the `/proc/version` read
      (which may throw), and `os.platform()`. */
  datatype Environment = Environment(
    distroName: Option<string>,
    interop: Option<string>,
    procVersion: Attempt<string>,
    platform: string)

  /** A JavaScript string is truthy when it is present and non-empty. */
  predicate Truthy(v: Option<string>)
  {
    v.Some? && v.value != []
  }

  /** `isWSL`: a non-empty `WSL_DISTRO_NAME` or `WSL_INTEROP`, or a readable `/proc/version`
      that mentions `microsoft` in any letter case. */
  predicate IsWsl(env: Environment)
  {
    || Truthy(env.distroName) || Truthy(env.interop)
    || (env.procVersion.Returned? && Contains(ToLowerAscii(env.procVersion.value), "microsoft"))
  }

  /** `createPlatformClipboard`: WSL before the operating-system switch; an unknown platform
      is an error naming it. */
  function CreatePlatformClipboard(env: Environment): (r: Result<AdapterKind, string>)
    ensures IsWsl(env) ==> r == Ok(WslAdapter)
    ensures !IsWsl(env) ==> (r == Ok(WindowsAdapter) <==> env.platform == "win32")
    ensures !IsWsl(env) ==> (r == Ok(MacAdapter) <==> env.platform == "darwin")
    ensures !IsWsl(env) ==> (r == Ok(LinuxAdapter) <==> env.platform == "linux")
    ensures r.Err? <==> !IsWsl(env) && env.platform !in {"win32", "darwin", "linux"}
    ensures r.Err? ==> r.error == "Unsupported platform: " + env.platform
  {
    if IsWsl(env) then Ok(WslAdapter)
    else if env.platform == "win32" then Ok(WindowsAdapter)
    else if env.platform == "darwin" then Ok(MacAdapter)
    else if env.platform == "linux" then Ok(LinuxAdapter)
    else Err("Unsupported platform: " + env.platform)
  }

  /** A failed `/proc/version` read alone never selects WSL. */
  lemma ProcVersionFailureIsNotWsl(env: Environment)
    requires !Truthy(env.distroName) && !Truthy(env.interop) && env.procVersion.Threw?
    ensures !IsWsl(env)
  {
  }

  /** A kernel banner that mentions `Microsoft` selects WSL even on the `linux` platform. */
  lemma MicrosoftKernelSelectsWsl(env: Environment, i: nat)
    requires env.procVersion.Returned?
    requires i + 9 <= |env.procVersion.value|
    requires ToLowerAscii(env.procVersion.value)[i..i + 9] == "microsoft"
    ensures CreatePlatformClipboard(env) == Ok(WslAdapter)
  {
    ContainsWitness(ToLowerAscii(env.procVersion.value), "microsoft", i);
  }
}
