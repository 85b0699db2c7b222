/** The Linux adapter: `bash` runs a script that saves the clipboard image (X11 or
    Wayland) to a temporary file and prints its path. */
module LinuxClipboard {
  import opened Wrappers
  import opened Text
  import opened PlatformAdapter

  const ShellExited: string := "Shell script exited with code "
  const ShellTimeout: string := "Shell script timeout"

  /** `runShellScript`: exit codes 0 and 1 both resolve. */
  function RunShellScript(run: HelperRun): (r: Attempt<string>)
    ensures r.Returned? <==> run.Closed? && (run.code == Some(0) || run.code == Some(1))
    ensures r.Returned? ==> r.value == Trim(run.stdout)
    ensures run.TimedOut? ==> r == Threw("Shell script timeout")
    ensures run.Closed? && r.Threw? ==> StartsWith(r.message, ShellExited)
  {
    SettleZeroOrOne(run, ShellExited, ShellTimeout)
  }

  /** `hasImage`: true exactly when the script exited with 0 or 1 and printed a path. */
  function HasImage(run: HelperRun): (b: bool)
    ensures b <==> run.Closed? && (run.code == Some(0) || run.code == Some(1)) && IsImagePath(Trim(run.stdout))
  {
    PlatformAdapter.HasImage(RunShellScript(run))
  }

  /** `getImage`: the file the script named, registered for cleanup; nothing on a
      rejected run, a sentinel answer or a missing file. */
  function GetImage(run: HelperRun, fs: FileSystem, tempFiles: set<string>): (f: Fetched)
    ensures f.image.Some? <==> HasImage(run) && Trim(run.stdout) in fs && fs[Trim(run.stdout)].File?
    ensures f.image.Some? ==> f.tempFiles == tempFiles + {Trim(run.stdout)}
    ensures f.image.None? ==> f.tempFiles == tempFiles
  {
    PlatformAdapter.GetImage(RunShellScript(run), fs, tempFiles)
  }

  /** A failed, killed or timed-out script reads as an empty clipboard whatever it printed. */
  lemma FailedRunIsNoImage(run: HelperRun, fs: FileSystem, tempFiles: set<string>)
    requires !run.Closed? || (run.code != Some(0) && run.code != Some(1))
    ensures !HasImage(run)
    ensures GetImage(run, fs, tempFiles) == Fetched(None, tempFiles)
  {
  }
}
