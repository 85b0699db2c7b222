/** The WSL adapter's path rewriting between the Linux view of a Windows drive
    (`/mnt/c/dir/file`) and the Windows view (`C:\dir\file`). Paths outside the
    deterministic branch go to the external `wslpath` command, which is a parameter
    here: it yields the command's standard output, or `None` when the command fails. */
module WslPaths {
  import opened Wrappers
  import opened Text

  /** An external `wslpath -w` / `wslpath -u` run on one path. */
  type PathCommand = string -> Option<string>

  /** The Linux mount point of the Windows drives. */
  const MountPrefix: string := "/mnt/"

  /** The shape `/^([A-Za-z]):\\(.*)$/`: a drive letter, `:\`, then a rest on one line. */
  predicate IsDrivePath(w: string)
  {
    |w| >= 3 && IsAsciiLetter(w[0]) && w[1] == ':' && w[2] == '\\' && NoLineTerminator(w[3..])
  }

  /** The answer of the external command, trimmed, or the input itself when it fails. */
  function ViaCommand(p: string, command: PathCommand): (r: string)
    ensures command(p).None? ==> r == p
    ensures command(p).Some? ==> r == Trim(command(p).value)
  {
    match command(p)
    case Some(out) => Trim(out)
    case None => p
  }

  /** `/mnt/<d>/<rest>` becomes `upper(d):\rest` with separators turned round; any
      other path is handed to `wslpath -w`. */
  function ConvertToWindowsPath(wslPath: string, wslpathW: PathCommand): (r: string)
    ensures !StartsWith(wslPath, MountPrefix) ==> r == ViaCommand(wslPath, wslpathW)
  {
    var parts := Split(wslPath, '/');
    if StartsWith(wslPath, MountPrefix) && |parts| > 3 then
      ToUpperAscii(parts[2]) + ":\\" + Join(parts[3..], '\\')
    else ViaCommand(wslPath, wslpathW)
  }

  /** `<L>:\<rest>` becomes `/mnt/lower(L)/rest` with separators turned round; any other
      path is handed to `wslpath -u`. */
  function ConvertToWSLPath(windowsPath: string, wslpathU: PathCommand): (r: string)
    ensures IsDrivePath(windowsPath) ==>
              |r| == |windowsPath| + 4 && StartsWith(r, MountPrefix)
              && IsAsciiLower(r[5]) && r[6] == '/' && '\\' !in r
    ensures !IsDrivePath(windowsPath) ==> r == ViaCommand(windowsPath, wslpathU)
  {
    if IsDrivePath(windowsPath) then
      var r := MountPrefix + [ToLowerChar(windowsPath[0])] + "/" + ReplaceChar(windowsPath[3..], '\\', '/');
      assert r[..5] == MountPrefix;
      assert forall i :: 0 <= i < |r| ==> r[i] != '\\';
      r
    else ViaCommand(windowsPath, wslpathU)
  }

  /** The segments of a mounted path: an empty root, `mnt`, the drive, then the rest. */
  lemma MountSplit(d: string, rest: string)
    requires '/' !in d
    ensures Split(MountPrefix + d + "/" + rest, '/') == [[], "mnt", d] + Split(rest, '/')
  {
    var s := MountPrefix + d + "/" + rest;
    assert s == [] + ['/'] + ("mnt" + ['/'] + (d + ['/'] + rest));
    SplitPrefix(d, '/', rest);
    SplitPrefix("mnt", '/', d + ['/'] + rest);
    SplitPrefix([], '/', "mnt" + ['/'] + (d + ['/'] + rest));
  }

  /** A mounted path with a drive and a rest turns into a drive path. */
  lemma MountToDrive(d: string, rest: string, wslpathW: PathCommand)
    requires '/' !in d
    ensures ConvertToWindowsPath(MountPrefix + d + "/" + rest, wslpathW)
            == ToUpperAscii(d) + ":\\" + ReplaceChar(rest, '/', '\\')
  {
    var s := MountPrefix + d + "/" + rest;
    MountSplit(d, rest);
    var parts := Split(s, '/');
    assert s[..5] == MountPrefix;
    assert parts[2] == d && parts[3..] == Split(rest, '/');
    JoinSplit(rest, '/', '\\');
  }

  /** A drive path turns into a mounted path. */
  lemma DriveToMount(l: char, rest: string, wslpathU: PathCommand)
    requires IsAsciiLetter(l) && NoLineTerminator(rest)
    ensures ConvertToWSLPath([l] + ":\\" + rest, wslpathU)
            == MountPrefix + [ToLowerChar(l)] + "/" + ReplaceChar(rest, '\\', '/')
  {
    var w := [l] + ":\\" + rest;
    assert w[3..] == rest;
  }

  /** From Linux to Windows and back: a one-letter lower-case drive and a rest without
      backslashes or line breaks come back unchanged. */
  lemma WslWindowsRoundTrip(d: char, rest: string, wslpathW: PathCommand, wslpathU: PathCommand)
    requires IsAsciiLower(d) && '\\' !in rest && NoLineTerminator(rest)
    ensures ConvertToWSLPath(ConvertToWindowsPath(MountPrefix + [d] + "/" + rest, wslpathW), wslpathU)
            == MountPrefix + [d] + "/" + rest
  {
    MountToDrive([d], rest, wslpathW);
    var replaced := ReplaceChar(rest, '/', '\\');
    assert ToUpperAscii([d]) == [ToUpperChar(d)];
    assert NoLineTerminator(replaced) by {
      forall i | 0 <= i < |replaced| ensures !IsLineTerminator(replaced[i]) { }
    }
    DriveToMount(ToUpperChar(d), replaced, wslpathU);
    LowerUpperInverse(d);
    ReplaceCharInverse(rest, '/', '\\');
  }

  /** From Windows to Linux and back: an upper-case drive letter and a rest without
      forward slashes or line breaks come back unchanged. */
  lemma WindowsWslRoundTrip(l: char, rest: string, wslpathW: PathCommand, wslpathU: PathCommand)
    requires IsAsciiUpper(l) && '/' !in rest && NoLineTerminator(rest)
    ensures ConvertToWindowsPath(ConvertToWSLPath([l] + ":\\" + rest, wslpathU), wslpathW)
            == [l] + ":\\" + rest
  {
    DriveToMount(l, rest, wslpathU);
    var replaced := ReplaceChar(rest, '\\', '/');
    MountToDrive([ToLowerChar(l)], replaced, wslpathW);
    assert ToUpperAscii([ToLowerChar(l)]) == [ToUpperChar(ToLowerChar(l))];
    UpperLowerInverse(l);
    ReplaceCharInverse(rest, '\\', '/');
  }

  /** `/mnt/c` alone has only three segments and is not rewritten by the deterministic branch. */
  lemma BareDriveGoesToCommand(s: string, wslpathW: PathCommand)
    requires s == "/mnt/c"
    ensures ConvertToWindowsPath(s, wslpathW) == ViaCommand(s, wslpathW)
  {
    assert s == [] + ['/'] + ("mnt" + ['/'] + "c");
    SplitNoSeparator("c", '/');
    SplitPrefix("mnt", '/', "c");
    SplitPrefix([], '/', "mnt" + ['/'] + "c");
  }
}
