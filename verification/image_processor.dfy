/** The naming and size check of `src/services/imageProcessor.ts`. The file name comes
    from the first usable source in a fixed order: the selected text, the vision
    model's suggestion, the clock. The model client's state, the clock and the
    outcomes of its two requests are parameters; the client's new state is part of
    the result, so that "the client was not consulted" can be stated. */
module ImageProcessor {
  import opened Wrappers
  import opened Text
  import opened Signatures
  import StringUtils
  import OllamaClient

  /** The longest file name the processor produces. */
  const MaxFileNameLength: int := 255

  /** The largest image accepted, in bytes (10 MiB). */
  const MaxImageSize: int := 10 * 1024 * 1024

  /** Where a base name came from. */
  datatype NameSource = FromSelection | FromModel | FromClock

  /** A base name, its source, and the model client's availability state afterwards. */
  datatype Base = Base(name: string, source: NameSource, availability: OllamaClient.Availability)

  /** The selection counts only when it is present and not blank. */
  predicate UsableSelection(selectedText: Option<string>)
  {
    selectedText.Some? && Trim(selectedText.value) != []
  }

  /** The base name `generateFileName` picks before the extension is added. Every
      failure of the model path (unavailable, request error, blank answer) falls back
      to the clock. */
  function ChooseBaseName(selectedText: Option<string>, useOllama: bool,
                          client: OllamaClient.Availability, now: int, probe: OllamaClient.Probe,
                          generated: OllamaClient.Generated, clock: StringUtils.LocalTime): (b: Base)
    ensures b.source == FromSelection <==> UsableSelection(selectedText)
    ensures b.source == FromSelection ==> b.name == StringUtils.SanitizeFileName(Trim(selectedText.value))
    ensures b.source == FromModel ==>
              && useOllama
              && OllamaClient.IsAvailable(client, now, probe).available
              && OllamaClient.AnalyzeImage(generated).Ok?
              && b.name == OllamaClient.AnalyzeImage(generated).value
    ensures b.source == FromClock ==> b.name == StringUtils.TimestampFileName(clock)
    ensures b.source != FromSelection && useOllama ==>
              b.availability == OllamaClient.IsAvailable(client, now, probe).availability
    ensures b.source == FromSelection || !useOllama ==> b.availability == client
    ensures (b.source != FromSelection && useOllama && OllamaClient.IsAvailable(client, now, probe).available
             && OllamaClient.AnalyzeImage(generated).Ok?) ==> b.source == FromModel
  {
    if UsableSelection(selectedText) then
      Base(StringUtils.SanitizeFileName(Trim(selectedText.value)), FromSelection, client)
    else if !useOllama then
      Base(StringUtils.TimestampFileName(clock), FromClock, client)
    else
      var checked := OllamaClient.IsAvailable(client, now, probe);
      if !checked.available then
        Base(StringUtils.TimestampFileName(clock), FromClock, checked.availability)
      else match OllamaClient.AnalyzeImage(generated)
        case Ok(suggested) =>
          ModelNameKept(suggested);
          if Trim(suggested) != [] then
            Base(StringUtils.SanitizeFileName(Trim(suggested)), FromModel, checked.availability)
          else Base(StringUtils.TimestampFileName(clock), FromClock, checked.availability)
        case Err(_) =>
          Base(StringUtils.TimestampFileName(clock), FromClock, checked.availability)
  }

  /** A cleaned model answer survives trimming and sanitising unchanged. */
  lemma ModelNameKept(name: string)
    requires name != [] && OllamaClient.IsCleanSlug(name)
    ensures Trim(name) == name
    ensures StringUtils.SanitizeFileName(Trim(name)) == name
  {
    assert name[0] in name && name[|name| - 1] in name;
    TrimIdentity(name);
    assert StringUtils.IsCleanName(name) by {
      forall c | c in name ensures !StringUtils.IsReserved(c) && !IsSpace(c) {
      }
    }
    StringUtils.SanitizeFixedPoint(name);
  }

  /** The result of `generateFileName` with the client's state afterwards. */
  datatype Named = Named(fileName: string, source: NameSource, availability: OllamaClient.Availability)

  /** `generateFileName`: the base name, a dot and the format, cut to 255 characters. */
  function GenerateFileName(selectedText: Option<string>, useOllama: bool, format: string,
                            client: OllamaClient.Availability, now: int, probe: OllamaClient.Probe,
                            generated: OllamaClient.Generated, clock: StringUtils.LocalTime): (n: Named)
    ensures |n.fileName| <= MaxFileNameLength
    ensures var b := ChooseBaseName(selectedText, useOllama, client, now, probe, generated, clock);
            && n.source == b.source && n.availability == b.availability
            && n.fileName == StringUtils.TruncateFileName(b.name + "." + format, MaxFileNameLength)
  {
    var b := ChooseBaseName(selectedText, useOllama, client, now, probe, generated, clock);
    StringUtils.TruncateLength(b.name + "." + format, MaxFileNameLength);
    Named(StringUtils.TruncateFileName(b.name + "." + format, MaxFileNameLength), b.source, b.availability)
  }

  /** A usable selection decides the name alone: the model client is neither consulted
      nor changed, and the clock and the model's answers play no part. */
  lemma SelectionIgnoresModel(selectedText: Option<string>, format: string,
                              u1: bool, c: OllamaClient.Availability, n1: int, p1: OllamaClient.Probe,
                              g1: OllamaClient.Generated, k1: StringUtils.LocalTime,
                              u2: bool, n2: int, p2: OllamaClient.Probe,
                              g2: OllamaClient.Generated, k2: StringUtils.LocalTime)
    requires UsableSelection(selectedText)
    ensures var a := GenerateFileName(selectedText, u1, format, c, n1, p1, g1, k1);
            var b := GenerateFileName(selectedText, u2, format, c, n2, p2, g2, k2);
            a == b && a.availability == c && a.source == FromSelection
  {
  }

  /** With model naming off and no usable selection, the name is the timestamp and the
      client is left alone. */
  lemma ModelOffUsesClock(selectedText: Option<string>, format: string,
                          client: OllamaClient.Availability, now: int, probe: OllamaClient.Probe,
                          generated: OllamaClient.Generated, clock: StringUtils.LocalTime)
    requires !UsableSelection(selectedText)
    ensures var n := GenerateFileName(selectedText, false, format, client, now, probe, generated, clock);
            n.source == FromClock && n.availability == client
  {
  }

  /** With model naming on and no usable selection, a failed or rejected request falls
      back to the clock; a successful one names the file after the cleaned answer. */
  lemma ModelOutcomeDecides(selectedText: Option<string>, format: string,
                            client: OllamaClient.Availability, now: int, probe: OllamaClient.Probe,
                            generated: OllamaClient.Generated, clock: StringUtils.LocalTime)
    requires !UsableSelection(selectedText)
    ensures var n := GenerateFileName(selectedText, true, format, client, now, probe, generated, clock);
            var checked := OllamaClient.IsAvailable(client, now, probe);
            && n.availability == checked.availability
            && (n.source == FromModel <==> checked.available && OllamaClient.AnalyzeImage(generated).Ok?)
  {
  }

  /** A clean name that fits keeps its place: the file name is exactly the name, a dot
      and the format. */
  lemma CleanSelectionFits(t: string, format: string,
                           useOllama: bool, client: OllamaClient.Availability, now: int,
                           probe: OllamaClient.Probe, generated: OllamaClient.Generated,
                           clock: StringUtils.LocalTime)
    requires StringUtils.IsCleanName(t) && |t| + 1 + |format| <= MaxFileNameLength
    ensures GenerateFileName(Some(t), useOllama, format, client, now, probe, generated, clock).fileName
            == t + "." + format
  {
    assert t[0] in t && t[|t| - 1] in t;
    TrimIdentity(t);
    StringUtils.SanitizeFixedPoint(t);
  }

  /** The selection "my-test-image" and the format "png" give "my-test-image.png". */
  lemma FileNameExample(t: string, format: string,
                        useOllama: bool, client: OllamaClient.Availability, now: int,
                        probe: OllamaClient.Probe, generated: OllamaClient.Generated,
                        clock: StringUtils.LocalTime)
    requires t == "my-test-image" && format == "png"
    ensures GenerateFileName(Some(t), useOllama, format, client, now, probe, generated, clock).fileName
            == t + "." + format
  {
    ExampleIsClean(t);
    CleanSelectionFits(t, format, useOllama, client, now, probe, generated, clock);
  }

  lemma ExampleIsClean(t: string)
    requires t == "my-test-image"
    ensures StringUtils.IsCleanName(t)
  {
    assert forall i :: 0 <= i < |t| ==> t[i] == '-' || IsAsciiLower(t[i]);
    assert NoDouble(t, '-');
  }

  /** `processImage`: images over 10 MiB are refused; others pass through unchanged. */
  function ProcessImage(image: ImageData): (r: Result<ImageData, string>)
    ensures r.Ok? <==> |image.buffer| <= MaxImageSize
    ensures r.Ok? ==> r.value == image
    ensures r.Err? ==> r.error == "Image size exceeds 10MB limit"
  {
    if |image.buffer| > MaxImageSize then Err("Image size exceeds 10MB limit") else Ok(image)
  }

  /** The limit is ten mebibytes inclusive: an image of exactly 10 * 1024 * 1024 bytes
      passes unchanged, and one byte more is refused. */
  lemma ProcessImageLimit(a: ImageData, b: ImageData)
    requires |a.buffer| == 10 * 1024 * 1024 && |b.buffer| == |a.buffer| + 1
    ensures ProcessImage(a) == Ok(a)
    ensures ProcessImage(b) == Err("Image size exceeds 10MB limit")
  {
  }

  /** `getConfiguredFormat`: the configured format, `png` when unset or empty. */
  function ConfiguredFormat(value: Option<string>): (r: string)
    ensures r != []
    ensures value.Some? && value.value != [] ==> r == value.value
  {
    OllamaClient.Setting(value, "png")
  }
}
