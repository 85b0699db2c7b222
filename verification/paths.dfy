/** The part of Node's POSIX `path` module the extension relies on, over a
    segment-list view of paths: `normalize`, `join`, `dirname`, `basename`,
    `extname`, `isAbsolute` and `relative`. A string is read as a path by
    splitting on `/`, dropping empty and `.` segments and resolving `..`
    against what precedes it; it is written back by joining with `/`. */
module Paths {
  import opened Text

  /** A segment that names a directory entry: not empty, no separator, not `.` or `..`. */
  predicate IsName(s: string)
  {
    s != [] && '/' !in s && s != "." && s != ".."
  }

  /** A path as a list of segments. */
  datatype FsPath = FsPath(absolute: bool, segments: seq<string>)

  /** A path in normal form: names only, except that a relative path may start with `..`. */
  predicate Normal(p: FsPath)
  {
    forall i :: 0 <= i < |p.segments| ==> SegmentOk(p.absolute, p.segments, i)
  }

  /** Segment `i` is a name, or a `..` of a relative path preceded only by `..`. */
  predicate SegmentOk(absolute: bool, segs: seq<string>, i: nat)
    requires i < |segs|
  {
    IsName(segs[i]) || (!absolute && segs[i] == ".." && (i == 0 || segs[i - 1] == ".."))
  }

  predicate AllNames(segs: seq<string>)
  {
    forall i :: 0 <= i < |segs| ==> IsName(segs[i])
  }

  /** Segments of a normal path are non-empty and hold no separator. */
  lemma NormalSegments(p: FsPath)
    requires Normal(p)
    ensures forall k :: 0 <= k < |p.segments| ==> '/' !in p.segments[k] && p.segments[k] != []
  {
    forall k | 0 <= k < |p.segments|
      ensures '/' !in p.segments[k] && p.segments[k] != []
    {
      assert SegmentOk(p.absolute, p.segments, k);
    }
  }

  /** An absolute normal path holds names only. */
  lemma NormalAbsoluteNames(p: FsPath)
    requires Normal(p) && p.absolute
    ensures AllNames(p.segments)
  {
    forall i | 0 <= i < |p.segments| ensures IsName(p.segments[i]) {
      assert SegmentOk(p.absolute, p.segments, i);
    }
  }

  /** Dropping trailing segments keeps a path normal. */
  lemma NormalPrefix(p: FsPath, n: nat)
    requires Normal(p) && n <= |p.segments|
    ensures Normal(FsPath(p.absolute, p.segments[..n]))
  {
    var q := p.segments[..n];
    forall i | 0 <= i < |q|
      ensures SegmentOk(p.absolute, q, i)
    {
      assert SegmentOk(p.absolute, p.segments, i);
      assert q[i] == p.segments[i];
      assert i > 0 ==> q[i - 1] == p.segments[i - 1];
    }
  }

  // ---------------------------------------------------------------------------
  // Reading a path
  // ---------------------------------------------------------------------------

  /** One segment of `normalize`: empty and `.` vanish, `..` pops a name (or, at the root of
      an absolute path, vanishes; in front of a relative path, stays), a name is pushed. */
  function Step(absolute: bool, stack: seq<string>, part: string): seq<string>
  {
    if part == [] || part == "." then stack
    else if part == ".." then
      if stack != [] && stack[|stack| - 1] != ".." then stack[..|stack| - 1]
      else if absolute then stack
      else stack + [".."]
    else stack + [part]
  }

  /** One step keeps the stack normal. */
  lemma StepNormal(absolute: bool, stack: seq<string>, part: string)
    requires Normal(FsPath(absolute, stack)) && '/' !in part
    ensures Normal(FsPath(absolute, Step(absolute, stack, part)))
  {
    var next := Step(absolute, stack, part);
    if part == [] || part == "." {
    } else if part == ".." {
      if stack != [] && stack[|stack| - 1] != ".." {
        NormalPrefix(FsPath(absolute, stack), |stack| - 1);
      } else if !absolute {
        assert next == stack + [".."];
        forall i | 0 <= i < |next|
          ensures SegmentOk(absolute, next, i)
        {
          if i < |stack| {
            assert SegmentOk(absolute, stack, i);
            assert next[i] == stack[i];
            assert i > 0 ==> next[i - 1] == stack[i - 1];
          }
        }
      }
    } else {
      assert IsName(part);
      assert next == stack + [part];
      forall i | 0 <= i < |next|
        ensures SegmentOk(absolute, next, i)
      {
        if i < |stack| {
          assert SegmentOk(absolute, stack, i);
          assert next[i] == stack[i];
          assert i > 0 ==> next[i - 1] == stack[i - 1];
        }
      }
    }
  }

  /** `normalize`'s left-to-right pass over the segments. */
  function Resolve(absolute: bool, stack: seq<string>, parts: seq<string>): (r: seq<string>)
    requires Normal(FsPath(absolute, stack))
    requires forall k :: 0 <= k < |parts| ==> '/' !in parts[k]
    ensures Normal(FsPath(absolute, r))
    decreases |parts|
  {
    if parts == [] then stack
    else
      StepNormal(absolute, stack, parts[0]);
      Resolve(absolute, Step(absolute, stack, parts[0]), parts[1..])
  }

  /** A path string read as segments. */
  function Parse(s: string): (p: FsPath)
    ensures Normal(p)
    ensures p.absolute <==> StartsWith(s, "/")
  {
    var absolute := StartsWith(s, "/");
    FsPath(absolute, Resolve(absolute, [], Split(s, '/')))
  }

  /** Segments written back as a path string; an empty relative path is `.`. */
  function Render(p: FsPath): (s: string)
    requires Normal(p)
    ensures s != []
    ensures StartsWith(s, "/") <==> p.absolute
  {
    if p.absolute then "/" + Join(p.segments, '/')
    else if p.segments == [] then
      assert "."[0] == '.';
      "."
    else
      NormalSegments(p);
      JoinHead(p.segments, '/');
      assert p.segments[0][0] in p.segments[0];
      Join(p.segments, '/')
  }

  /** A joined path starts with the first character of its first part. */
  lemma JoinHead(parts: seq<string>, c: char)
    requires |parts| >= 1 && parts[0] != []
    ensures Join(parts, c) != [] && Join(parts, c)[0] == parts[0][0]
  {
  }

  /** `path.normalize` (without the trailing-separator rule). */
  function Normalize(s: string): string
  {
    Render(Parse(s))
  }

  // ---------------------------------------------------------------------------
  // Normal forms are fixed points
  // ---------------------------------------------------------------------------

  /** Pushing names on a stack never pops or drops anything. */
  lemma {:induction false} ResolveNames(absolute: bool, stack: seq<string>, names: seq<string>)
    requires Normal(FsPath(absolute, stack)) && AllNames(names)
    ensures Resolve(absolute, stack, names) == stack + names
    decreases |names|
  {
    if names != [] {
      assert IsName(names[0]);
      assert Step(absolute, stack, names[0]) == stack + [names[0]];
      StepNormal(absolute, stack, names[0]);
      assert AllNames(names[1..]) by {
        forall i | 0 <= i < |names[1..]| ensures IsName(names[1..][i]) {
          assert names[1..][i] == names[i + 1];
        }
      }
      ResolveNames(absolute, stack + [names[0]], names[1..]);
      assert stack + [names[0]] + names[1..] == stack + names;
    }
  }

  /** Resolving a normal relative path from scratch reproduces it. */
  lemma {:induction false} ResolveNormal(stack: seq<string>, segs: seq<string>)
    requires Normal(FsPath(false, stack + segs))
    requires forall i :: 0 <= i < |stack| ==> stack[i] == ".."
    ensures forall k :: 0 <= k < |segs| ==> '/' !in segs[k]
    ensures Normal(FsPath(false, stack)) && Resolve(false, stack, segs) == stack + segs
    decreases |segs|
  {
    NormalParts(stack, segs);
    if segs != [] {
      if segs[0] == ".." {
        var next := stack + [".."];
        assert Step(false, stack, segs[0]) == next;
        assert next + segs[1..] == stack + segs;
        ResolveNormal(next, segs[1..]);
      } else {
        ResolveNames(false, stack, segs);
      }
    }
  }

  /** How a normal relative path splits after a run of `..`: both parts hold no
      separator, the run is normal, and what follows it is a `..` or names only. */
  lemma NormalParts(stack: seq<string>, segs: seq<string>)
    requires Normal(FsPath(false, stack + segs))
    requires forall i :: 0 <= i < |stack| ==> stack[i] == ".."
    ensures forall k :: 0 <= k < |segs| ==> '/' !in segs[k]
    ensures Normal(FsPath(false, stack))
    ensures segs != [] && segs[0] != ".." ==> AllNames(segs)
  {
    var all := stack + segs;
    NormalSegments(FsPath(false, all));
    assert forall k :: 0 <= k < |segs| ==> segs[k] == all[|stack| + k];
    NormalPrefix(FsPath(false, all), |stack|);
    assert all[..|stack|] == stack;
    if segs != [] && segs[0] != ".." {
      assert all[|stack|] == segs[0];
      assert SegmentOk(false, all, |stack|);
      forall i | 0 <= i < |segs| ensures IsName(segs[i]) {
        NamesFollowNames(all, |stack|, |stack| + i);
      }
    }
  }

  /** In a normal path, a name is followed only by names. */
  lemma {:induction false} NamesFollowNames(segs: seq<string>, i: nat, j: nat)
    requires Normal(FsPath(false, segs))
    requires i <= j < |segs| && IsName(segs[i])
    ensures IsName(segs[j])
    decreases j - i
  {
    if j > i {
      NamesFollowNames(segs, i, j - 1);
      assert SegmentOk(false, segs, j);
    }
  }

  /** Writing a normal path and reading it back gives the same path. */
  lemma ParseRender(p: FsPath)
    requires Normal(p)
    ensures Parse(Render(p)) == p
  {
    var s := Render(p);
    if p.absolute {
      NormalAbsoluteNames(p);
      if p.segments == [] {
        assert s == "/";
        assert Split(s, '/') == [[], []];
      } else {
        assert s == [] + ['/'] + Join(p.segments, '/');
        SplitPrefix([], '/', Join(p.segments, '/'));
        SplitJoin(p.segments, '/');
        assert Split(s, '/') == [[]] + p.segments;
        assert Step(true, [], []) == [];
        ResolveNames(true, [], p.segments);
      }
    } else if p.segments == [] {
      assert s == ".";
      SplitNoSeparator(".", '/');
    } else {
      NormalSegments(p);
      SplitJoin(p.segments, '/');
      JoinHead(p.segments, '/');
      assert [] + p.segments == p.segments;
      ResolveNormal([], p.segments);
    }
  }

  /** `normalize` is idempotent. */
  lemma NormalizeIdempotent(s: string)
    ensures Normalize(Normalize(s)) == Normalize(s)
  {
    ParseRender(Parse(s));
  }

  // ---------------------------------------------------------------------------
  // join, dirname, basename, extname, isAbsolute
  // ---------------------------------------------------------------------------

  /** `path.isAbsolute`. */
  predicate IsAbsolute(s: string)
  {
    StartsWith(s, "/")
  }

  function NonEmpty(parts: seq<string>): (r: seq<string>)
    ensures forall k :: 0 <= k < |r| ==> r[k] != []
  {
    if parts == [] then []
    else if parts[0] == [] then NonEmpty(parts[1..])
    else [parts[0]] + NonEmpty(parts[1..])
  }

  /** `path.join`: the non-empty arguments joined by `/` and normalised; `.` when none is left. */
  function JoinPaths(parts: seq<string>): (r: string)
    ensures r != []
  {
    var kept := NonEmpty(parts);
    if kept == [] then "." else Normalize(Join(kept, '/'))
  }

  /** `path.dirname` of a normal path: everything but the last segment. */
  function Dirname(s: string): (r: string)
    ensures r != []
  {
    var p := Parse(s);
    var n := if p.segments == [] then 0 else |p.segments| - 1;
    NormalPrefix(p, n);
    Render(FsPath(p.absolute, p.segments[..n]))
  }

  /** `path.basename`: the last segment, or empty for a root or empty path. */
  function Basename(s: string): (r: string)
    ensures '/' !in r
  {
    var p := Parse(s);
    NormalSegments(p);
    if p.segments == [] then [] else p.segments[|p.segments| - 1]
  }

  /** `path.extname` of a base name: from the last `.` on, when that dot is not the first
      character and the name is not `..`. */
  function ExtName(name: string): (e: string)
    ensures e == [] || (e[0] == '.' && EndsWith(name, e) && |e| < |name|)
  {
    var dot := LastDot(name);
    if dot > 0 && name != ".." then
      assert name[dot..] == name[|name| - |name[dot..]|..];
      name[dot..]
    else []
  }

  /** The index of the last `.` in `s`, or -1. */
  function LastDot(s: string): (i: int)
    ensures -1 <= i < |s|
    ensures i >= 0 ==> s[i] == '.' && forall j :: i < j < |s| ==> s[j] != '.'
    ensures i == -1 ==> '.' !in s
  {
    if s == [] then -1
    else if s[|s| - 1] == '.' then |s| - 1
    else
      var i := LastDot(s[..|s| - 1]);
      assert forall j :: 0 <= j < |s| - 1 ==> s[..|s| - 1][j] == s[j];
      i
  }

  /** `path.extname`. */
  function Extname(s: string): string
  {
    ExtName(Basename(s))
  }

  /** `path.basename(s, path.extname(s))`: the base name without its extension. */
  function Stem(s: string): (r: string)
    ensures r + Extname(s) == Basename(s)
  {
    var b := Basename(s);
    var e := ExtName(b);
    b[..|b| - |e|]
  }

  /** Joining a directory and a name makes the name the last segment. */
  lemma {:induction false} JoinNameBasename(dir: string, name: string)
    requires dir != [] && IsName(name)
    ensures Basename(JoinPaths([dir, name])) == name
    ensures Parse(JoinPaths([dir, name])) == FsPath(Parse(dir).absolute, Parse(dir).segments + [name])
  {
    var joined := dir + ['/'] + name;
    assert NonEmpty([dir, name]) == [dir, name] by {
      assert [dir, name][1..] == [name];
      assert NonEmpty([name]) == [name] by { assert [name][1..] == []; }
    }
    assert Join([dir, name], '/') == joined by { assert [dir, name][1..] == [name]; }
    SplitAppend(dir, '/', name);
    SplitNoSeparator(name, '/');
    var pd := Parse(dir);
    var absolute := StartsWith(joined, "/");
    assert absolute == pd.absolute by {
      assert joined[..1] == dir[..1];
    }
    ResolveAppend(absolute, [], Split(dir, '/'), [name]);
    ResolveNames(absolute, pd.segments, [name]);
    var p := FsPath(absolute, pd.segments + [name]);
    assert Parse(joined) == p;
    ParseRender(p);
  }

  /** Dropping empty arguments commutes with appending a non-empty one. */
  lemma {:induction false} NonEmptyAppend(parts: seq<string>, name: string)
    requires name != []
    ensures NonEmpty(parts + [name]) == NonEmpty(parts) + [name]
    decreases |parts|
  {
    if parts == [] {
      assert [] + [name] == [name];
      assert [name][1..] == [];
    } else {
      assert (parts + [name])[1..] == parts[1..] + [name];
      NonEmptyAppend(parts[1..], name);
    }
  }

  /** A name alone reads as a one-segment relative path. */
  lemma ParseName(name: string)
    requires IsName(name)
    ensures Parse(name) == FsPath(false, [name])
  {
    assert name[0] in name;
    SplitNoSeparator(name, '/');
    ResolveNames(false, [], [name]);
  }

  /** `path.join(...parts, name)` for a name: the path `path.join(...parts)` names, one
      segment deeper, and the name is its base name. */
  lemma JoinPathsLast(parts: seq<string>, name: string)
    requires IsName(name)
    ensures var p := Parse(JoinPaths(parts));
            Parse(JoinPaths(parts + [name])) == FsPath(p.absolute, p.segments + [name])
    ensures Basename(JoinPaths(parts + [name])) == name
  {
    var kept := NonEmpty(parts);
    NonEmptyAppend(parts, name);
    if kept == [] {
      assert NonEmpty(parts + [name]) == [name];
      assert Join([name], '/') == name;
      ParseName(name);
      ParseRender(Parse(name));
      SplitNoSeparator(".", '/');
      assert Parse(".") == FsPath(false, []);
      ParseRender(Parse("."));
    } else {
      var dir := Join(kept, '/');
      JoinAppendLast(kept, name, '/');
      JoinHead(kept, '/');
      JoinNameBasename(dir, name);
      assert NonEmpty([dir, name]) == [dir, name] by {
        assert [dir, name][1..] == [name];
        assert NonEmpty([name]) == [name] by { assert [name][1..] == []; }
      }
      assert Join([dir, name], '/') == dir + ['/'] + name by { assert [dir, name][1..] == [name]; }
      assert JoinPaths(parts + [name]) == JoinPaths([dir, name]);
      ParseRender(Parse(dir));
    }
  }

  /** The normalising pass over a concatenation is the pass over the second part started
      from the result of the first. */
  lemma {:induction false} ResolveAppend(absolute: bool, stack: seq<string>, xs: seq<string>, ys: seq<string>)
    requires Normal(FsPath(absolute, stack))
    requires forall k :: 0 <= k < |xs| ==> '/' !in xs[k]
    requires forall k :: 0 <= k < |ys| ==> '/' !in ys[k]
    ensures Resolve(absolute, stack, xs + ys) == Resolve(absolute, Resolve(absolute, stack, xs), ys)
    decreases |xs|
  {
    if xs == [] {
      assert xs + ys == ys;
    } else {
      assert (xs + ys)[0] == xs[0] && (xs + ys)[1..] == xs[1..] + ys;
      StepNormal(absolute, stack, xs[0]);
      ResolveAppend(absolute, Step(absolute, stack, xs[0]), xs[1..], ys);
    }
  }

  // ---------------------------------------------------------------------------
  // resolve and relative
  // ---------------------------------------------------------------------------

  /** `path.resolve(s)` with `cwd` as the working directory. */
  function ResolveFrom(cwd: FsPath, s: string): (p: FsPath)
    requires cwd.absolute && Normal(cwd)
    ensures p.absolute && Normal(p)
  {
    if IsAbsolute(s) then Parse(s)
    else FsPath(true, Resolve(true, cwd.segments, Split(s, '/')))
  }

  /** The number of leading segments two paths share. */
  function CommonPrefix(a: seq<string>, b: seq<string>): (n: nat)
    ensures n <= |a| && n <= |b| && a[..n] == b[..n]
    ensures n < |a| && n < |b| ==> a[n] != b[n]
  {
    if a == [] || b == [] || a[0] != b[0] then 0
    else
      var n := CommonPrefix(a[1..], b[1..]);
      assert a[..n + 1] == [a[0]] + a[1..][..n];
      assert b[..n + 1] == [b[0]] + b[1..][..n];
      n + 1
  }

  /** `k` parent-directory segments. */
  function Ups(k: nat): (r: seq<string>)
    ensures |r| == k && forall i :: 0 <= i < k ==> r[i] == ".."
  {
    seq(k, _ => "..")
  }

  /** The segments of `path.relative` between two absolute normal paths: climb to the common
      ancestor, then descend. */
  function RelativeSegments(f: seq<string>, t: seq<string>): (parts: seq<string>)
    requires AllNames(t)
    ensures forall k :: 0 <= k < |parts| ==> parts[k] != [] && '/' !in parts[k]
  {
    var n := CommonPrefix(f, t);
    var parts := Ups(|f| - n) + t[n..];
    assert forall k :: 0 <= k < |parts| ==> parts[k] == ".." || parts[k] == t[n + k - (|f| - n)];
    parts
  }

  /** `path.relative(from, to)`; equal paths give the empty string. */
  function Relative(cwd: FsPath, from: string, to: string): (r: string)
    requires cwd.absolute && Normal(cwd)
    ensures !IsAbsolute(r)
  {
    var pf := ResolveFrom(cwd, from);
    var pt := ResolveFrom(cwd, to);
    NormalAbsoluteNames(pt);
    var parts := RelativeSegments(pf.segments, pt.segments);
    if parts == [] then [] else
      JoinHead(parts, '/');
      assert parts[0][0] in parts[0];
      Join(parts, '/')
  }

  /** Climbing `k` levels from an absolute directory drops its last `k` names. */
  lemma {:induction false} ResolveUps(stack: seq<string>, k: nat)
    requires AllNames(stack) && k <= |stack|
    ensures Resolve(true, stack, Ups(k)) == stack[..|stack| - k]
    decreases k
  {
    assert Normal(FsPath(true, stack)) by {
      forall i | 0 <= i < |stack| ensures SegmentOk(true, stack, i) { }
    }
    if k > 0 {
      assert Ups(k)[0] == ".." && Ups(k)[1..] == Ups(k - 1);
      var next := stack[..|stack| - 1];
      assert Step(true, stack, "..") == next;
      assert AllNames(next);
      ResolveUps(next, k - 1);
      assert next[..|next| - (k - 1)] == stack[..|stack| - k];
    }
  }

  /** Following the relative segments from `f` arrives at `t`. */
  lemma ResolveRelativeSegments(f: seq<string>, t: seq<string>)
    requires AllNames(f) && AllNames(t)
    ensures Resolve(true, f, RelativeSegments(f, t)) == t
  {
    var n := CommonPrefix(f, t);
    ClimbThenDescend(f, t, n);
    DescendFromCommon(f, t, n);
  }

  /** Descending from the common ancestor along the rest of `t` arrives at `t`. */
  lemma DescendFromCommon(f: seq<string>, t: seq<string>, n: nat)
    requires AllNames(f) && AllNames(t) && n == CommonPrefix(f, t)
    ensures Resolve(true, Resolve(true, f, Ups(|f| - n)), t[n..]) == t
  {
    AllNamesSplit(t, n);
    ClimbToCommon(f, t, n);
    ResolveNames(true, t[..n], t[n..]);
    assert t[..n] + t[n..] == t;
  }

  /** The relative segments climb to the common ancestor, then descend from there. */
  lemma ClimbThenDescend(f: seq<string>, t: seq<string>, n: nat)
    requires AllNames(f) && AllNames(t) && n == CommonPrefix(f, t)
    ensures Resolve(true, f, RelativeSegments(f, t)) == Resolve(true, Resolve(true, f, Ups(|f| - n)), t[n..])
  {
    var ups := Ups(|f| - n);
    AllNamesNormal(f);
    AllNamesSplit(t, n);
    assert forall k :: 0 <= k < |ups| ==> '/' !in ups[k];
    ResolveAppend(true, f, ups, t[n..]);
  }

  /** A stack of names is a normal absolute path. */
  lemma AllNamesNormal(stack: seq<string>)
    requires AllNames(stack)
    ensures Normal(FsPath(true, stack))
  {
    forall i | 0 <= i < |stack| ensures SegmentOk(true, stack, i) { }
  }

  /** Both parts of a stack of names cut at `n` are stacks of names. */
  lemma AllNamesSplit(t: seq<string>, n: nat)
    requires AllNames(t) && n <= |t|
    ensures AllNames(t[n..]) && Normal(FsPath(true, t[..n]))
    ensures forall k :: 0 <= k < |t[n..]| ==> '/' !in t[n..][k]
  {
    forall i | 0 <= i < |t[n..]| ensures IsName(t[n..][i]) { assert t[n..][i] == t[n + i]; }
    forall i | 0 <= i < |t[..n]| ensures SegmentOk(true, t[..n], i) { assert t[..n][i] == t[i]; }
  }

  /** Climbing from `f` to the common ancestor of `f` and `t` arrives at `t`'s first `n` names. */
  lemma ClimbToCommon(f: seq<string>, t: seq<string>, n: nat)
    requires AllNames(f) && n == CommonPrefix(f, t)
    ensures Resolve(true, f, Ups(|f| - n)) == t[..n]
  {
    ResolveUps(f, |f| - n);
    assert f[..|f| - (|f| - n)] == f[..n];
  }

  /** No relative segments means the two paths are equal. */
  lemma NoRelativeSegments(f: seq<string>, t: seq<string>)
    requires AllNames(t) && RelativeSegments(f, t) == []
    ensures f == t
  {
    var n := CommonPrefix(f, t);
    assert |Ups(|f| - n) + t[n..]| == 0;
    assert f == f[..n] && t == t[..n];
  }

  /** Resolving `path.relative(from, to)` against `from` leads back to `to`. */
  lemma RelativeRoundTrip(cwd: FsPath, from: string, to: string)
    requires cwd.absolute && Normal(cwd)
    ensures ResolveFrom(ResolveFrom(cwd, from), Relative(cwd, from, to)) == ResolveFrom(cwd, to)
  {
    var pf := ResolveFrom(cwd, from);
    var pt := ResolveFrom(cwd, to);
    NormalAbsoluteNames(pf);
    NormalAbsoluteNames(pt);
    var parts := RelativeSegments(pf.segments, pt.segments);
    var r := Relative(cwd, from, to);
    if parts == [] {
      NoRelativeSegments(pf.segments, pt.segments);
      assert r == [] && !IsAbsolute(r);
      assert Split(r, '/') == [[]];
      var empty: seq<string> := [[]];
      assert empty[1..] == [];
      assert Resolve(true, pf.segments, empty) == pf.segments;
    } else {
      SplitJoin(parts, '/');
      ResolveRelativeSegments(pf.segments, pt.segments);
    }
  }
}
