/** The file operations of `src/services/fileManager.ts` over a model of the disk: a
    map from normalised path strings to what the editor's file-system API reports
    there. Writing and deleting are pure updates of that map; whether the underlying
    call fails is a parameter. */
module FileManager {
  import opened Wrappers
  import opened Text
  import opened Bytes
  import opened Paths

  // ---------------------------------------------------------------------------
  // The disk and fileExists
  // ---------------------------------------------------------------------------

  /** The bits of the editor's `FileType`. */
  const FileTypeFile: int := 1
  const FileTypeDirectory: int := 2
  const FileTypeSymbolicLink: int := 64

  /** A directory entry: a regular file with its bytes, a directory, or a symbolic link
      to a file or a directory. */
  datatype Item = Regular(bytes: seq<byte>) | Folder | Link(toDirectory: bool)

  /** The disk, keyed by path. */
  type Disk = map<string, Item>

  /** The `type` that `stat` reports: a link has the link bit and the bit of its target. */
  function FileTypeOf(item: Item): int
  {
    match item
    case Regular(_) => FileTypeFile
    case Folder => FileTypeDirectory
    case Link(d) => FileTypeSymbolicLink + (if d then FileTypeDirectory else FileTypeFile)
  }

  /** `fileExists`: `stat` succeeds and reports exactly `FileType.File`; a failed `stat`
      counts as absent. */
  predicate FileExists(disk: Disk, path: string)
  {
    path in disk && FileTypeOf(disk[path]) == FileTypeFile
  }

  /** Only a regular file counts: a directory, or a link even to a file, leaves the name
      free. */
  lemma FileExistsIffRegular(disk: Disk, path: string)
    ensures FileExists(disk, path) <==> path in disk && disk[path].Regular?
  {
  }

  // ---------------------------------------------------------------------------
  // ensureUniqueFileName
  // ---------------------------------------------------------------------------

  /** The file name of candidate `k`: the base name without its extension, `-k`, and
      the extension. */
  function CandidateName(basePath: string, k: nat): string
  {
    Stem(basePath) + "-" + NatToString(k) + Extname(basePath)
  }

  /** Candidate `k`, always derived from the original path, so suffixes do not pile up. */
  function Candidate(basePath: string, k: nat): string
  {
    JoinPaths([Dirname(basePath), CandidateName(basePath, k)])
  }

  /** Candidate `k` lies in the directory of the original path and is named by
      `CandidateName`. */
  lemma CandidateShape(basePath: string, k: nat)
    ensures IsName(CandidateName(basePath, k))
    ensures Basename(Candidate(basePath, k)) == CandidateName(basePath, k)
    ensures Parse(Candidate(basePath, k))
            == FsPath(Parse(Dirname(basePath)).absolute, Parse(Dirname(basePath)).segments + [CandidateName(basePath, k)])
  {
    var stem, ext := Stem(basePath), Extname(basePath);
    StemExtensionNoSeparator(basePath);
    SuffixedName(stem, NatToString(k), ext);
    JoinNameBasename(Dirname(basePath), CandidateName(basePath, k));
  }

  /** Neither the stem nor the extension of a path holds a separator. */
  lemma StemExtensionNoSeparator(basePath: string)
    ensures '/' !in Stem(basePath) && '/' !in Extname(basePath)
  {
    var stem, ext := Stem(basePath), Extname(basePath);
    assert stem + ext == Basename(basePath);
    forall i | 0 <= i < |stem| ensures stem[i] != '/' {
      assert stem[i] == Basename(basePath)[i];
    }
    forall i | 0 <= i < |ext| ensures ext[i] != '/' {
      assert ext[i] == Basename(basePath)[|stem| + i];
    }
  }

  /** A stem and an extension without separators, joined by `-` and a number, make a name. */
  lemma SuffixedName(stem: string, digits: string, ext: string)
    requires '/' !in stem && '/' !in ext && AllDigits(digits)
    ensures IsName(stem + "-" + digits + ext)
  {
    var name := stem + "-" + digits + ext;
    assert name[|stem|] == '-';
    forall i | 0 <= i < |name| ensures name[i] != '/' {
      if i < |stem| {
        assert name[i] == stem[i];
      } else if i == |stem| {
      } else if i < |stem| + 1 + |digits| {
        assert name[i] == digits[i - |stem| - 1];
      } else {
        assert name[i] == ext[i - |stem| - 1 - |digits|];
      }
    }
    assert name != "." && name != ".." by {
      assert "."[0] != '-' && ".."[0] != '-' && ".."[1] != '-';
    }
  }

  /** Distinct counters give distinct candidates. */
  lemma CandidateInjective(basePath: string, j: nat, k: nat)
    requires Candidate(basePath, j) == Candidate(basePath, k)
    ensures j == k
  {
    CandidateShape(basePath, j);
    CandidateShape(basePath, k);
    var stem, ext := Stem(basePath), Extname(basePath);
    var u, v := NatToString(j), NatToString(k);
    var a, b := CandidateName(basePath, j), CandidateName(basePath, k);
    assert a == b;
    assert |u| == |v|;
    assert a[|stem| + 1..|stem| + 1 + |u|] == u;
    assert b[|stem| + 1..|stem| + 1 + |v|] == v;
    NatToStringInjective(j, k);
  }

  /** A candidate's name is longer than the original's, so it is never the original. */
  lemma CandidateIsNew(basePath: string, k: nat)
    ensures Candidate(basePath, k) != basePath
  {
    CandidateShape(basePath, k);
    assert |CandidateName(basePath, k)| > |Basename(basePath)|;
  }

  /** The candidates are pairwise distinct and distinct from the original. */
  lemma CandidatesDistinct(basePath: string)
    ensures forall j: nat, k: nat :: Candidate(basePath, j) == Candidate(basePath, k) ==> j == k
    ensures forall k: nat :: Candidate(basePath, k) != basePath
  {
    forall j: nat, k: nat | Candidate(basePath, j) == Candidate(basePath, k) ensures j == k {
      CandidateInjective(basePath, j, k);
    }
    forall k: nat ensures Candidate(basePath, k) != basePath {
      CandidateIsNew(basePath, k);
    }
  }

  /** The values of `f` on `1..c`. */
  function Image(f: nat -> string, c: nat): set<string>
  {
    set j | 1 <= j <= c :: f(j)
  }

  /** An injective function takes `c` distinct values on `1..c`. */
  lemma {:induction false} ImageCount(f: nat -> string, c: nat)
    requires forall j: nat, k: nat :: f(j) == f(k) ==> j == k
    ensures |Image(f, c)| == c
    decreases c
  {
    if c > 0 {
      ImageCount(f, c - 1);
      assert Image(f, c) == Image(f, c - 1) + {f(c)};
      assert f(c) !in Image(f, c - 1);
    }
  }

  /** When `base` and the values of `f` on `1..c-1` are all files, the disk holds at
      least `c` entries. */
  lemma TakenBound(disk: Disk, base: string, f: nat -> string, c: nat)
    requires forall j: nat, k: nat :: f(j) == f(k) ==> j == k
    requires forall k: nat :: f(k) != base
    requires FileExists(disk, base)
    requires forall j :: 1 <= j < c ==> FileExists(disk, f(j))
    ensures c <= |disk|
  {
    if c > 0 {
      ImageCount(f, c - 1);
      var taken := Image(f, c - 1) + {base};
      assert |taken| == c;
      SubsetSize(taken, disk.Keys);
    }
  }

  /** A subset is no larger than the set. */
  lemma {:induction false} SubsetSize<T>(a: set<T>, b: set<T>)
    requires a <= b
    ensures |a| <= |b|
    decreases a
  {
    if a != {} {
      var x :| x in a;
      SubsetSize(a - {x}, b - {x});
    }
  }

  /** The search loop of `ensureUniqueFileName`, for any sequence `f` of distinct
      alternatives to `base`: `base` when it is free, else the first free `f(k)`. */
  method FirstFree(disk: Disk, base: string, f: nat -> string) returns (path: string, counter: nat)
    requires forall j: nat, k: nat :: f(j) == f(k) ==> j == k
    requires forall k: nat :: f(k) != base
    ensures !FileExists(disk, path)
    ensures counter == 0 <==> !FileExists(disk, base)
    ensures counter == 0 ==> path == base
    ensures counter > 0 ==> path == f(counter)
    ensures forall j :: 1 <= j < counter ==> FileExists(disk, f(j))
    ensures counter <= |disk|
  {
    path := base;
    counter := 0;
    while FileExists(disk, path)
      invariant counter == 0 ==> path == base
      invariant counter > 0 ==> path == f(counter) && FileExists(disk, base)
      invariant forall j :: 1 <= j < counter ==> FileExists(disk, f(j))
      invariant counter <= |disk|
      decreases |disk| - counter
    {
      TakenBound(disk, base, f, counter + 1);
      counter := counter + 1;
      path := f(counter);
    }
  }

  /** `ensureUniqueFileName`: the path itself when no file is there, otherwise the first
      candidate `k >= 1` with no file; every earlier candidate is taken. The loop ends
      because the candidates are distinct and the disk is finite. */
  method EnsureUniqueFileName(disk: Disk, basePath: string) returns (path: string, counter: nat)
    ensures !FileExists(disk, path)
    ensures counter == 0 <==> !FileExists(disk, basePath)
    ensures counter == 0 ==> path == basePath
    ensures counter > 0 ==> path == Candidate(basePath, counter)
    ensures forall j :: 1 <= j < counter ==> FileExists(disk, Candidate(basePath, j))
    ensures counter <= |disk|
    ensures IsUniqueChoice(disk, basePath, path)
  {
    CandidatesDistinct(basePath);
    var f := (k: nat) => Candidate(basePath, k);
    path, counter := FirstFree(disk, basePath, f);
    forall j | 1 <= j < counter ensures FileExists(disk, Candidate(basePath, j)) {
      assert f(j) == Candidate(basePath, j);
    }
    if counter > 0 {
      assert path == Candidate(basePath, counter) && TakenBefore(disk, basePath, counter);
    }
  }

  /** Candidates `1` to `k - 1` are all taken. */
  predicate TakenBefore(disk: Disk, basePath: string, k: nat)
  {
    forall j :: 1 <= j < k ==> FileExists(disk, Candidate(basePath, j))
  }

  /** What `ensureUniqueFileName` settles on for `basePath`: the path itself when no file
      is there, otherwise the candidate `k >= 1` with no file after `k - 1` taken ones. */
  ghost predicate IsUniqueChoice(disk: Disk, basePath: string, path: string)
  {
    if !FileExists(disk, basePath) then path == basePath
    else !FileExists(disk, path) && exists k: nat :: 1 <= k && path == Candidate(basePath, k) && TakenBefore(disk, basePath, k)
  }

  /** The search's result is the one path that description fits. */
  lemma UniqueChoiceDeterministic(disk: Disk, basePath: string, p1: string, p2: string)
    requires IsUniqueChoice(disk, basePath, p1) && IsUniqueChoice(disk, basePath, p2)
    ensures p1 == p2
  {
    if FileExists(disk, basePath) {
      assert !FileExists(disk, p1) && !FileExists(disk, p2);
      var k1: nat :| 1 <= k1 && p1 == Candidate(basePath, k1) && TakenBefore(disk, basePath, k1);
      var k2: nat :| 1 <= k2 && p2 == Candidate(basePath, k2) && TakenBefore(disk, basePath, k2);
      if k1 < k2 {
        assert false;
      } else if k2 < k1 {
        assert false;
      } else {
        assert k1 == k2;
        assert p1 == p2;
      }
    } else {
      assert p1 == basePath;
      assert p2 == basePath;
    }
  }

  /** The suffix goes before the last extension: `my.image.name.png` becomes
      `my.image.name-1.png`. */
  lemma SuffixBeforeExtension(basePath: string)
    requires Basename(basePath) == "my.image.name.png"
    ensures Basename(Candidate(basePath, 1)) == "my.image.name-1.png"
  {
    var b := Basename(basePath);
    ExampleExtension(b);
    assert Stem(basePath) + ".png" == b;
    assert Stem(basePath) == b[..|b| - 4];
    CandidateShape(basePath, 1);
    ExampleSuffixed(Stem(basePath), NatToString(1));
  }

  lemma ExampleExtension(b: string)
    requires b == "my.image.name.png"
    ensures ExtName(b) == ".png"
  {
    assert b[..16][..15][..14] == "my.image.name.";
    assert LastDot(b[..16][..15][..14]) == 13;
    assert LastDot(b) == 13;
  }

  lemma ExampleSuffixed(stem: string, digits: string)
    requires stem == "my.image.name.png"[..13] && digits == NatToString(1)
    ensures stem + "-" + digits + ".png" == "my.image.name-1.png"
  {
    assert digits == "1";
  }

  /** A name without an extension takes the suffix at its end: `image` becomes `image-1`. */
  lemma SuffixWithoutExtension(basePath: string)
    requires Basename(basePath) == "image"
    ensures Basename(Candidate(basePath, 1)) == "image-1"
  {
    NoExtensionExample(Basename(basePath));
    assert Stem(basePath) + [] == "image";
    CandidateShape(basePath, 1);
    ExampleUnsuffixed(Stem(basePath), NatToString(1), Extname(basePath));
  }

  lemma NoExtensionExample(b: string)
    requires b == "image"
    ensures ExtName(b) == [] && NatToString(1) == "1"
  {
    assert '.' !in b;
  }

  lemma ExampleUnsuffixed(stem: string, digits: string, ext: string)
    requires stem == "image" && digits == "1" && ext == []
    ensures stem + "-" + digits + ext == "image-1"
  {
  }

  // ---------------------------------------------------------------------------
  // saveImage
  // ---------------------------------------------------------------------------

  /** An exception from the file-system calls; its `message` may be missing. */
  datatype Failure = Failure(message: Option<string>)

  const NoSpace: string := "No space left on device"
  const PermissionDenied: string := "Permission denied"

  /** The error `saveImage` throws for a failure of `stat`, `createDirectory` or
      `writeFile`: a full disk first, then a permission problem, else the original. */
  function TranslateSaveError(e: Failure): (r: Failure)
    ensures e.message.Some? && Contains(e.message.value, "ENOSPC") ==> r == Failure(Some(NoSpace))
    ensures e.message.Some? && !Contains(e.message.value, "ENOSPC")
            && (Contains(e.message.value, "Permission") || Contains(e.message.value, "EACCES"))
            ==> r == Failure(Some(PermissionDenied))
    ensures r.message.Some? && r.message.value != NoSpace && r.message.value != PermissionDenied ==> r == e
    ensures e.message.None? ==> r == e
    ensures (&& e.message.Some? && !Contains(e.message.value, "ENOSPC")
             && !Contains(e.message.value, "Permission") && !Contains(e.message.value, "EACCES"))
            ==> r == e
  {
    match e.message
    case None => e
    case Some(m) =>
      if Contains(m, "ENOSPC") then Failure(Some(NoSpace))
      else if Contains(m, "Permission") || Contains(m, "EACCES") then Failure(Some(PermissionDenied))
      else e
  }

  /** A string without the first character of `sub` does not contain `sub`. */
  lemma NotContainsByHead(s: string, sub: string)
    requires sub != [] && sub[0] !in s
    ensures !Contains(s, sub)
  {
    forall i | 0 <= i <= |s| - |sub| ensures !StartsWith(s[i..], sub) {
      assert s[i..][0] == s[i];
    }
  }

  /** The translated messages translate to themselves. */
  lemma TranslateSaveErrorIdempotent(e: Failure)
    ensures TranslateSaveError(TranslateSaveError(e)) == TranslateSaveError(e)
  {
    TranslatedMessages();
  }

  /** What the two translated messages contain. */
  lemma TranslatedMessages()
    ensures !Contains(NoSpace, "ENOSPC") && !Contains(NoSpace, "Permission") && !Contains(NoSpace, "EACCES")
    ensures !Contains(PermissionDenied, "ENOSPC") && Contains(PermissionDenied, "Permission")
  {
    NotContainsByHead(NoSpace, "ENOSPC");
    NotContainsByHead(NoSpace, "Permission");
    NotContainsByHead(NoSpace, "EACCES");
    NotContainsByHead(PermissionDenied, "ENOSPC");
    ContainsWitness(PermissionDenied, "Permission", 0);
  }

  /** How the calls `saveImage` makes settle: `createDirectory`, made only when `stat`
      finds no directory, and `writeFile`. `None` is success. */
  datatype SaveCalls = SaveCalls(create: Option<Failure>, write: Option<Failure>)

  /** The disk after `saveImage`, and the error it throws, if any. */
  datatype Saved = Saved(disk: Disk, error: Option<Failure>)

  /** The save goes through: the directory exists or is created, and the write succeeds. */
  predicate SaveSucceeds(disk: Disk, path: string, calls: SaveCalls)
  {
    (Dirname(path) in disk || calls.create.None?) && calls.write.None?
  }

  /** `saveImage`: create the directory when missing, then write the file. A failing call
      is reported through `TranslateSaveError`; a directory created before a failing
      write stays behind. */
  function SaveImage(disk: Disk, path: string, data: seq<byte>, calls: SaveCalls): (r: Saved)
    ensures r.error.None? <==> SaveSucceeds(disk, path, calls)
    ensures Dirname(path) !in disk && calls.create.Some? ==>
              r == Saved(disk, Some(TranslateSaveError(calls.create.value)))
    ensures (Dirname(path) in disk || calls.create.None?) && calls.write.Some? ==>
              && r.error == Some(TranslateSaveError(calls.write.value))
              && r.disk.Keys == disk.Keys + {Dirname(path)}
    ensures r.error.None? ==> && FileExists(r.disk, path) && r.disk[path] == Regular(data)
                              && r.disk.Keys == disk.Keys + {Dirname(path), path}
    ensures forall p :: p in disk && p != path ==> p in r.disk && r.disk[p] == disk[p]
    ensures forall p :: p in r.disk && p !in disk && p != path ==> p == Dirname(path) && r.disk[p] == Folder
  {
    var dir := Dirname(path);
    if dir !in disk && calls.create.Some? then Saved(disk, Some(TranslateSaveError(calls.create.value)))
    else
      var withDir := if dir in disk then disk else disk[dir := Folder];
      match calls.write
      case Some(e) => Saved(withDir, Some(TranslateSaveError(e)))
      case None => Saved(withDir[path := Regular(data)], None)
  }

  /** A write that fails after the directory was created leaves the new, empty directory
      behind, and nothing else. */
  lemma WriteFailureLeavesDirectory(disk: Disk, path: string, data: seq<byte>, e: Failure)
    requires Dirname(path) !in disk
    ensures SaveImage(disk, path, data, SaveCalls(None, Some(e)))
            == Saved(disk[Dirname(path) := Folder], Some(TranslateSaveError(e)))
  {
  }

  // ---------------------------------------------------------------------------
  // deleteFile, getRelativePath, buildImagePath
  // ---------------------------------------------------------------------------

  /** `deleteFile`: remove the entry; a failed delete (including a missing path) is
      only logged, so the disk stays as it was. */
  function DeleteFile(disk: Disk, path: string, fails: bool): (r: Disk)
    ensures !fails ==> path !in r
    ensures fails ==> r == disk
    ensures r.Keys == disk.Keys || r.Keys == disk.Keys - {path}
    ensures forall p :: p in r ==> r[p] == disk[p]
  {
    if fails || path !in disk then disk else disk - {path}
  }

  /** Saving a file that was not there and deleting it again restores the disk, as long
      as its directory was already present. */
  lemma SaveThenDelete(disk: Disk, path: string, data: seq<byte>)
    requires path !in disk && Dirname(path) in disk
    ensures DeleteFile(SaveImage(disk, path, data, SaveCalls(None, None)).disk, path, false) == disk
  {
    var saved := SaveImage(disk, path, data, SaveCalls(None, None)).disk;
    assert path != Dirname(path);
    var r := DeleteFile(saved, path, false);
    assert r.Keys == disk.Keys;
  }

  /** `getRelativePath`: the way from the document's directory to the image, with
      forward slashes. `cwd` is the working directory against which relative inputs
      are resolved. */
  function GetRelativePath(cwd: FsPath, fromPath: string, toPath: string): (r: string)
    requires cwd.absolute && Normal(cwd)
    ensures '\\' !in r
  {
    var rel := Relative(cwd, Dirname(fromPath), toPath);
    var r := ReplaceChar(rel, '\\', '/');
    assert forall i :: 0 <= i < |r| ==> r[i] != '\\';
    r
  }

  /** The relative path leads from the document's directory to the image whenever the
      way there has no backslash to rewrite. */
  lemma RelativePathResolves(cwd: FsPath, fromPath: string, toPath: string)
    requires cwd.absolute && Normal(cwd)
    requires '\\' !in Relative(cwd, Dirname(fromPath), toPath)
    ensures ResolveFrom(ResolveFrom(cwd, Dirname(fromPath)), GetRelativePath(cwd, fromPath, toPath))
            == ResolveFrom(cwd, toPath)
  {
    var rel := Relative(cwd, Dirname(fromPath), toPath);
    forall i | 0 <= i < |rel| ensures ReplaceChar(rel, '\\', '/')[i] == rel[i] {
      assert rel[i] in rel;
    }
    assert ReplaceChar(rel, '\\', '/') == rel;
    RelativeRoundTrip(cwd, Dirname(fromPath), toPath);
  }

  /** `buildImagePath`: a relative image directory is taken from the document's
      directory, an absolute one as it is. */
  function BuildImagePath(documentPath: string, fileName: string, imagePath: string): string
  {
    JoinPaths(ImageDirectory(documentPath, imagePath) + [fileName])
  }

  /** The `path.join` arguments in front of the file name. */
  function ImageDirectory(documentPath: string, imagePath: string): seq<string>
  {
    if !IsAbsolute(imagePath) then [Dirname(documentPath), imagePath] else [imagePath]
  }

  /** The image lands, under its own name, in the directory those arguments name. */
  lemma BuildImagePathShape(documentPath: string, fileName: string, imagePath: string)
    requires IsName(fileName)
    ensures Basename(BuildImagePath(documentPath, fileName, imagePath)) == fileName
    ensures var d := Parse(JoinPaths(ImageDirectory(documentPath, imagePath)));
            Parse(BuildImagePath(documentPath, fileName, imagePath)) == FsPath(d.absolute, d.segments + [fileName])
  {
    JoinPathsLast(ImageDirectory(documentPath, imagePath), fileName);
  }

  /** An absolute image directory does not depend on the document. */
  lemma AbsoluteImagePathIgnoresDocument(d1: string, d2: string, fileName: string, imagePath: string)
    requires IsAbsolute(imagePath)
    ensures BuildImagePath(d1, fileName, imagePath) == BuildImagePath(d2, fileName, imagePath)
  {
  }
}
