/** The WSL adapter: the Windows adapter with `powershell.exe` reached from Linux. The
    script's path is handed over in Windows form and the temporary file's path comes
    back in Windows form, so both are rewritten; `hasImage` and `getImage` are the
    Windows ones running over the rewritten answer. */
module WslClipboard {
  import opened Wrappers
  import opened Text
  import opened PlatformAdapter
  import opened WslPaths
  import opened Signatures
  import BaseClipboard
  import WindowsClipboard

  /** The arguments `powershell.exe` gets: the script path in Windows form. */
  function PowerShellArgs(scriptPath: string, wslpathW: PathCommand): (args: seq<string>)
    ensures args == WindowsClipboard.PowerShellArgs(ConvertToWindowsPath(scriptPath, wslpathW))
    ensures forall d, rest :: '/' !in d && scriptPath == MountPrefix + d + "/" + rest ==>
              args[5] == ToUpperAscii(d) + ":\\" + ReplaceChar(rest, '/', '\\')
  {
    forall d, rest | '/' !in d && scriptPath == MountPrefix + d + "/" + rest
      ensures ConvertToWindowsPath(scriptPath, wslpathW) == ToUpperAscii(d) + ":\\" + ReplaceChar(rest, '/', '\\')
    {
      MountToDrive(d, rest, wslpathW);
    }
    WindowsClipboard.PowerShellArgs(ConvertToWindowsPath(scriptPath, wslpathW))
  }

  /** `runPowerShellScript`: the Windows reading of the exit, then a file path (and only
      a file path) is rewritten into its Linux form. */
  function RunPowerShellScript(run: HelperRun, wslpathU: PathCommand): (r: Attempt<string>)
    ensures r.Threw? <==> WindowsClipboard.RunPowerShellScript(run).Threw?
    ensures r.Threw? ==> r == WindowsClipboard.RunPowerShellScript(run)
    ensures r.Returned? && !IsImagePath(Trim(run.stdout)) ==> r.value == Trim(run.stdout)
    ensures r.Returned? && IsImagePath(Trim(run.stdout)) ==> r.value == ConvertToWSLPath(Trim(run.stdout), wslpathU)
  {
    var r := WindowsClipboard.RunPowerShellScript(run);
    if r.Returned? && IsImagePath(r.value) then Returned(ConvertToWSLPath(r.value, wslpathU)) else r
  }

  /** `hasImage`, inherited from the Windows adapter over the rewritten answer. */
  function HasImage(run: HelperRun, wslpathU: PathCommand): bool
  {
    PlatformAdapter.HasImage(RunPowerShellScript(run, wslpathU))
  }

  /** The Linux path under which the file the script printed is read. */
  function TempPath(run: HelperRun, wslpathU: PathCommand): string
    requires run.Closed?
  {
    ConvertToWSLPath(Trim(run.stdout), wslpathU)
  }

  /** `getImage`, inherited from the Windows adapter: the file is read under its Linux path.
      An image comes back exactly when `hasImage` holds and that path is a readable file,
      with the file's bytes and their detected format. */
  function GetImage(run: HelperRun, wslpathU: PathCommand, fs: FileSystem, tempFiles: set<string>): (f: Fetched)
    ensures f.image.Some? <==> HasImage(run, wslpathU) && TempPath(run, wslpathU) in fs
                               && fs[TempPath(run, wslpathU)].File?
    ensures f.image.Some? ==>
              var bytes := fs[TempPath(run, wslpathU)].bytes;
              && f.image.value == ImageData(bytes, FormatName(BaseClipboard.DetectImageFormat(bytes)))
              && f.tempFiles == tempFiles + {TempPath(run, wslpathU)}
    ensures f.image.None? ==> f.tempFiles == tempFiles
  {
    PlatformAdapter.GetImage(RunPowerShellScript(run, wslpathU), fs, tempFiles)
  }

  /** WSL sees an image only where Windows would; for a drive-letter answer the two agree,
      while a `wslpath -u` answer that trims to nothing hides the image. */
  lemma HasImageAgainstWindows(run: HelperRun, wslpathU: PathCommand)
    ensures HasImage(run, wslpathU) ==> WindowsClipboard.HasImage(run)
    ensures WindowsClipboard.HasImage(run) && IsDrivePath(Trim(run.stdout)) ==> HasImage(run, wslpathU)
  {
    if WindowsClipboard.HasImage(run) && IsDrivePath(Trim(run.stdout)) {
      MountedPathIsImagePath(Trim(run.stdout), wslpathU);
    }
  }

  /** A drive path rewritten under `/mnt/` still names a file. */
  lemma MountedPathIsImagePath(t: string, wslpathU: PathCommand)
    requires IsDrivePath(t)
    ensures IsImagePath(ConvertToWSLPath(t, wslpathU))
  {
    var w := ConvertToWSLPath(t, wslpathU);
    assert w[..5] == MountPrefix;
    assert w != "no image" by { assert w[0] == '/'; }
    assert !StartsWith(w, "error:") by { assert w[0] == '/'; }
  }

  /** A temporary file `C:\...` printed by the script is read as `/mnt/c/...`. */
  lemma DrivePathReadUnderMount(run: HelperRun, wslpathU: PathCommand, l: char, rest: string)
    requires run.Closed? && run.code == Some(0) && Trim(run.stdout) == [l] + ":\\" + rest
    requires IsAsciiLetter(l) && NoLineTerminator(rest)
    ensures RunPowerShellScript(run, wslpathU) == Returned(MountPrefix + [ToLowerChar(l)] + "/" + ReplaceChar(rest, '\\', '/'))
  {
    assert IsImagePath(Trim(run.stdout)) by {
      var t := Trim(run.stdout);
      assert t[1] == ':';
      assert t != "no image" by { assert "no image"[1] == 'o'; }
      assert !StartsWith(t, "error:") by { assert "error:"[1] == 'r'; }
    }
    DriveToMount(l, rest, wslpathU);
  }
}
