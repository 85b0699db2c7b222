/** The macOS adapter: `osascript` runs an AppleScript that saves the clipboard image
    to a temporary file and prints its path. Unlike the other adapters, a non-zero exit
    is not an error: it reads as `no image`. */
module MacClipboard {
  import opened Wrappers
  import opened Text
  import opened PlatformAdapter

  /** `runAppleScript`: only a spawn error or the timer rejects. */
  function RunAppleScript(run: HelperRun): (r: Attempt<string>)
    ensures r.Threw? <==> !run.Closed?
    ensures run.Closed? && run.code != Some(0) ==> r == Returned("no image")
    ensures run.Closed? && run.code == Some(0) ==> r == Returned(Trim(run.stdout))
    ensures run.TimedOut? ==> r == Threw("AppleScript timeout")
  {
    match run
    case Closed(code, out, _) => if code != Some(0) then Returned("no image") else Returned(Trim(out))
    case SpawnFailed(m) => Threw(m)
    case TimedOut => Threw("AppleScript timeout")
  }

  /** `hasImage`: true exactly when the script exited with 0 and printed a path. */
  function HasImage(run: HelperRun): (b: bool)
    ensures b <==> run.Closed? && run.code == Some(0) && IsImagePath(Trim(run.stdout))
  {
    PlatformAdapter.HasImage(RunAppleScript(run))
  }

  /** `getImage`: the file the script named, registered for cleanup. */
  function GetImage(run: HelperRun, fs: FileSystem, tempFiles: set<string>): (f: Fetched)
    ensures f.image.Some? <==> HasImage(run) && Trim(run.stdout) in fs && fs[Trim(run.stdout)].File?
    ensures f.image.Some? ==> f.tempFiles == tempFiles + {Trim(run.stdout)}
    ensures f.image.None? ==> f.tempFiles == tempFiles
  {
    PlatformAdapter.GetImage(RunAppleScript(run), fs, tempFiles)
  }

  /** An exit code other than 0 is an empty clipboard, not an error; the output is ignored. */
  lemma NonZeroExitIsNoImage(code: Option<int>, out: string, err: string)
    requires code != Some(0)
    ensures RunAppleScript(Closed(code, out, err)) == Returned("no image")
    ensures !HasImage(Closed(code, out, err))
  {
  }
}
