/** What the Windows, Linux and macOS adapters share: a helper script prints the
    path of a temporary image file (or `no image`, or `error: ...`); the adapter
    reads that file, remembers it in a registry of temporary files, and deletes the
    registered files on `cleanup`. The three source files repeat the same code for
    `hasImage`, `getImage` and `cleanup`; it is modelled once here and each adapter
    module supplies its own reading of the helper's exit. */
module PlatformAdapter {
  import opened Wrappers
  import opened Text
  import opened Bytes
  import opened Signatures
  import BaseClipboard

  /** How a helper process settled, as far as the adapter observes it: the first of
      `close` (with its exit code, `None` when killed by a signal, and the collected
      output), a spawn `error`, or the 5-second timer. */
  datatype HelperRun =
    | Closed(code: Option<int>, stdout: string, stderr: string)
    | SpawnFailed(message: string)
    | TimedOut

  /** The exit code as a template literal shows it. */
  function ExitCodeText(code: Option<int>): (s: string)
    ensures code.None? ==> s == "null"
    ensures code.Some? && code.value >= 0 ==> AllDigits(s) && DecimalValue(s) == code.value
  {
    match code
    case None => "null"
    case Some(c) =>
      if c >= 0 then DecimalRoundTrip(c); IntToString(c) else IntToString(c)
  }

  /** The helper's answer names a file: it is not empty, not `no image` and not an
      `error:` report. */
  predicate IsImagePath(r: string)
  {
    r != [] && r != "no image" && !StartsWith(r, "error:")
  }

  /** A file-system entry as `existsSync`/`readFileSync` see it: a readable file, or
      something that exists but cannot be read as one (a directory, a locked file). */
  datatype Entry = File(bytes: seq<byte>) | Unreadable

  /** The temporary directory, keyed by path. */
  type FileSystem = map<string, Entry>

  /** The result of `getImage` together with the registry of temporary files. */
  datatype Fetched = Fetched(image: Option<ImageData>, tempFiles: set<string>)

  /** The Windows and Linux reading of a helper's exit: codes 0 and 1 resolve with the
      trimmed output, any other code rejects with `<exited><c>: <stderr>`, a spawn error
      rejects with its own message and the timer with `timeout`. */
  function SettleZeroOrOne(run: HelperRun, exited: string, timeout: string): (r: Attempt<string>)
    ensures r.Returned? <==> run.Closed? && (run.code == Some(0) || run.code == Some(1))
    ensures r.Returned? ==> r.value == Trim(run.stdout)
    ensures run.Closed? && r.Threw? ==>
              r.message == exited + ExitCodeText(run.code) + ": " + run.stderr
    ensures run.Closed? && r.Threw? ==> StartsWith(r.message, exited)
    ensures run.SpawnFailed? ==> r == Threw(run.message)
    ensures run.TimedOut? ==> r == Threw(timeout)
  {
    match run
    case Closed(code, out, err) =>
      if code != Some(0) && code != Some(1) then
        var m := exited + (ExitCodeText(code) + ": " + err);
        StartsWithAppend(exited, ExitCodeText(code) + ": " + err);
        Threw(m)
      else Returned(Trim(out))
    case SpawnFailed(m) => Threw(m)
    case TimedOut => Threw(timeout)
  }

  /** `hasImage`: the helper settled with a file path; a rejection counts as no image. */
  function HasImage(result: Attempt<string>): bool
  {
    result.Returned? && IsImagePath(result.value)
  }

  /** `getImage`: read the file the helper named and register it; every failure,
      including a rejected helper and an unreadable file, gives no image. The bytes are
      not checked to be an image: the format falls back to `png`. */
  function GetImage(result: Attempt<string>, fs: FileSystem, tempFiles: set<string>): (f: Fetched)
    ensures f.image.Some? <==> HasImage(result) && result.value in fs && fs[result.value].File?
    ensures f.image.Some? ==>
              && f.image.value.buffer == fs[result.value].bytes
              && f.image.value.format == FormatName(BaseClipboard.DetectImageFormat(fs[result.value].bytes))
              && f.tempFiles == tempFiles + {result.value}
    ensures f.image.None? ==> f.tempFiles == tempFiles
  {
    if !HasImage(result) then Fetched(None, tempFiles)
    else
      var path := result.value;
      if path !in fs then Fetched(None, tempFiles)
      else match fs[path]
        case Unreadable => Fetched(None, tempFiles)
        case File(buffer) =>
          Fetched(Some(ImageData(buffer, FormatName(BaseClipboard.DetectImageFormat(buffer)))), tempFiles + {path})
  }

  /** A fetched image was announced by `hasImage` on the same helper answer. */
  lemma GetImpliesHas(result: Attempt<string>, fs: FileSystem, tempFiles: set<string>)
    ensures GetImage(result, fs, tempFiles).image.Some? ==> HasImage(result)
  {
  }

  /** Whatever bytes the helper's file holds are returned: a file with no known
      signature comes back labelled `png`. */
  lemma UnknownBytesBecomePng(path: string, bytes: seq<byte>, fs: FileSystem, tempFiles: set<string>)
    requires IsImagePath(path) && path in fs && fs[path] == File(bytes)
    requires !BaseClipboard.IsImageBuffer(bytes)
    ensures GetImage(Returned(path), fs, tempFiles).image == Some(ImageData(bytes, "png"))
  {
    BaseClipboard.DetectImpliesImage(bytes);
  }

  /** `cleanup`: delete every registered file that still exists, skip those whose
      deletion fails (`undeletable`), and empty the registry in any case. */
  method Cleanup(fs: FileSystem, tempFiles: set<string>, undeletable: set<string>)
    returns (fs': FileSystem, tempFiles': set<string>)
    ensures tempFiles' == {}
    ensures fs'.Keys == fs.Keys - (tempFiles - undeletable)
    ensures forall p :: p in fs' ==> fs'[p] == fs[p]
  {
    fs' := fs;
    var pending := tempFiles;
    while pending != {}
      invariant pending <= tempFiles
      invariant fs'.Keys == fs.Keys - ((tempFiles - pending) - undeletable)
      invariant forall p :: p in fs' ==> fs'[p] == fs[p]
      decreases |pending|
    {
      var p :| p in pending;
      if p in fs' && p !in undeletable {
        fs' := fs' - {p};
      }
      pending := pending - {p};
    }
    tempFiles' := {};
  }
}
