/** The Windows adapter: `powershell.exe` runs a script that saves the clipboard
    image to a temporary file and prints its path. */
module WindowsClipboard {
  import opened Wrappers
  import opened Text
  import opened PlatformAdapter

  /** The arguments `powershell.exe` is started with: no profile, no prompts, no
      execution policy, then the script. */
  function PowerShellArgs(scriptPath: string): (args: seq<string>)
    ensures |args| == 6 && args[4] == "-File" && args[5] == scriptPath
  {
    ["-NoProfile", "-NonInteractive", "-ExecutionPolicy", "Bypass", "-File", scriptPath]
  }

  const PowerShellExited: string := "PowerShell exited with code "
  const PowerShellTimeout: string := "PowerShell script timeout"

  /** `runPowerShellScript`: exit codes 0 and 1 both resolve (the script exits with 1
      when the clipboard holds no image). */
  function RunPowerShellScript(run: HelperRun): (r: Attempt<string>)
    ensures r.Returned? <==> run.Closed? && (run.code == Some(0) || run.code == Some(1))
    ensures r.Returned? ==> r.value == Trim(run.stdout)
    ensures run.TimedOut? ==> r == Threw(PowerShellTimeout)
    ensures run.Closed? && r.Threw? ==> StartsWith(r.message, PowerShellExited)
  {
    SettleZeroOrOne(run, PowerShellExited, PowerShellTimeout)
  }

  /** `hasImage`: true exactly when the script exited with 0 or 1 and printed a path. */
  function HasImage(run: HelperRun): (b: bool)
    ensures b <==> run.Closed? && (run.code == Some(0) || run.code == Some(1)) && IsImagePath(Trim(run.stdout))
  {
    PlatformAdapter.HasImage(RunPowerShellScript(run))
  }

  /** `getImage`: the file the script named, registered for cleanup; nothing on a
      rejected run, a sentinel answer or a missing file. */
  function GetImage(run: HelperRun, fs: FileSystem, tempFiles: set<string>): (f: Fetched)
    ensures f.image.Some? <==> HasImage(run) && Trim(run.stdout) in fs && fs[Trim(run.stdout)].File?
    ensures f.image.Some? ==> f.tempFiles == tempFiles + {Trim(run.stdout)}
    ensures f.image.None? ==> f.tempFiles == tempFiles
  {
    PlatformAdapter.GetImage(RunPowerShellScript(run), fs, tempFiles)
  }

  /** A failed, killed or timed-out script reads as an empty clipboard whatever it printed. */
  lemma FailedRunIsNoImage(run: HelperRun, fs: FileSystem, tempFiles: set<string>)
    requires !run.Closed? || (run.code != Some(0) && run.code != Some(1))
    ensures !HasImage(run)
    ensures GetImage(run, fs, tempFiles) == Fetched(None, tempFiles)
  {
  }
}
