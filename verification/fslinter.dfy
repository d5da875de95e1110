/**
 * `ocd-fslinter`: for every path (or every entry of a walk), normalise the
 * file's extension with a rename and delete macOS litter, each decision
 * carried out by the operation executor.
 */
module FsLinter {
  import opened Common
  import opened Strings
  import opened Paths
  import FsOps

  /** `SUFFIX_MAP`: lowercase long forms and their replacements. */
  const SuffixMap: map<string, string> := map[".tif" := ".tiff", ".jpeg" := ".jpg", ".mpeg4" := ".mp4"]

  /** The lowercased suffix, through `SUFFIX_MAP` when it is a key. */
  function NewSuffix(p: Path): (r: string)
  {
    var s := Lower(Suffix(p));
    if s in SuffixMap then SuffixMap[s] else s
  }

  /** `path.parent / (path.stem + suffix)`. */
  function FixedPath(p: Path): (r: Path)
    ensures r.parent == p.parent
  {
    Path(p.parent, Stem(p) + NewSuffix(p))
  }

  /** `fix_extension`: a rename for a file whose normalised path differs, nothing otherwise. */
  function FixExtension(p: Path, isFile: bool): (r: Option<FsOps.Operation>)
    ensures !isFile ==> r == None
    ensures r.Some? <==> isFile && FixedPath(p) != p
    ensures r.Some? ==> r.value == FsOps.Rename(p, FixedPath(p))
  {
    if !isFile then None
    else if FixedPath(p) != p then Some(FsOps.Rename(p, FixedPath(p)))
    else None
  }

  lemma MappedSuffix(s: string)
    requires s in SuffixMap
    ensures SuffixShape(SuffixMap[s]) && Lower(SuffixMap[s]) == SuffixMap[s] && SuffixMap[s] !in SuffixMap
  {
    var m := SuffixMap[s];
    assert m == ".tiff" || m == ".jpg" || m == ".mp4";
    ReplacementSuffix(m);
  }

  /** The three replacements are lowercase, well-formed suffixes. */
  lemma ReplacementSuffix(m: string)
    requires m == ".tiff" || m == ".jpg" || m == ".mp4"
    ensures SuffixShape(m) && Lower(m) == m && m !in SuffixMap
  {
    assert SuffixMap.Keys == {".tif", ".jpeg", ".mpeg4"};
    LowercaseSuffix(m);
  }

  lemma LowercaseSuffix(m: string)
    requires m == ".tiff" || m == ".jpg" || m == ".mp4"
    ensures SuffixShape(m) && Lower(m) == m
  {
    assert forall i :: 0 <= i < |m| ==> LowerChar(m[i]) == m[i];
  }

  /** The new suffix is a well-formed, lowercase suffix that is not a key of the map. */
  lemma NewSuffixShape(p: Path)
    requires Suffix(p) != []
    ensures SuffixShape(NewSuffix(p)) && Lower(NewSuffix(p)) == NewSuffix(p) && NewSuffix(p) !in SuffixMap
  {
    var s := Lower(Suffix(p));
    if s in SuffixMap {
      MappedSuffix(s);
    } else {
      LowerSuffixShape(Suffix(p));
      LowerIdempotent(Suffix(p));
    }
  }

  /** A path without a suffix is already normalised. */
  lemma NoSuffixFixed(p: Path)
    requires Suffix(p) == []
    ensures FixedPath(p) == p
  {
    StemSuffix(p);
    assert Lower(Suffix(p)) == [];
  }

  /** Normalising twice is normalising once. */
  lemma FixedPathIdempotent(p: Path)
    ensures FixedPath(FixedPath(p)) == FixedPath(p)
  {
    if Suffix(p) == [] {
      NoSuffixFixed(p);
    } else {
      var q := FixedPath(p);
      NewSuffixShape(p);
      assert p.name != [];
      ReplaceSuffix(p, NewSuffix(p));
      assert Suffix(q) == NewSuffix(p) && Stem(q) == Stem(p);
      assert NewSuffix(q) == NewSuffix(p);
    }
  }

  /** `fix_extension` on its own result asks for no further rename. */
  lemma FixExtensionIdempotent(p: Path)
    ensures FixExtension(FixedPath(p), true) == None
  {
    FixedPathIdempotent(p);
  }

  /** The suffix after the rename, for a file with a suffix: lowercased, then mapped. */
  lemma FixedSuffix(p: Path)
    requires Suffix(p) != []
    ensures Suffix(FixedPath(p)) == NewSuffix(p) && Stem(FixedPath(p)) == Stem(p)
    ensures Lower(Suffix(p)) in SuffixMap ==> Suffix(FixedPath(p)) == SuffixMap[Lower(Suffix(p))]
    ensures Lower(Suffix(p)) !in SuffixMap ==> Suffix(FixedPath(p)) == Lower(Suffix(p))
  {
    NewSuffixShape(p);
    ReplaceSuffix(p, NewSuffix(p));
  }

  /** An AppleDouble file (`._name`) or a `.DS_Store` file. */
  predicate OsxLitter(name: string)
  {
    name == ".DS_Store" || StartsWith(name, "._")
  }

  /** `deosify`: delete macOS litter files. */
  function Deosify(p: Path, isFile: bool): (r: Option<FsOps.Operation>)
    ensures r.Some? <==> isFile && OsxLitter(p.name)
    ensures r.Some? ==> r.value == FsOps.Delete(p)
  {
    if isFile && OsxLitter(p.name) then Some(FsOps.Delete(p)) else None
  }

  /** `path.is_file()` against the executor's current entries; `dirs` are the directories. */
  predicate IsFile(entries: map<Path, FsOps.Times>, dirs: set<Path>, p: Path)
  {
    p in entries && p !in dirs
  }

  /**
   * `run_one`: `fix_extension` and then `deosify`, both on the original
   * path and each decided on the state the previous one left; an error
   * raised by `execute` stops the run.
   */
  function RunOneStep(entries: map<Path, FsOps.Times>, dirs: set<Path>, p: Path, call: FsOps.CustomFn)
    : (r: (Option<FsOps.ExecError>, map<Path, FsOps.Times>))
  {
    var s1 := FsOps.Step(entries, FixExtension(p, IsFile(entries, dirs, p)), call);
    if s1.0.Raised? then (Some(s1.0.error), s1.1)
    else
      var s2 := FsOps.Step(s1.1, Deosify(p, IsFile(s1.1, dirs, p)), call);
      (if s2.0.Raised? then Some(s2.0.error) else None, s2.1)
  }

  method RunOne(fs: FsOps.Filesystem, dirs: set<Path>, p: Path, call: FsOps.CustomFn)
    returns (err: Option<FsOps.ExecError>)
    modifies fs
    ensures (err, fs.entries) == RunOneStep(old(fs.entries), dirs, p, call)
  {
    var op := FixExtension(p, p in fs.entries && p !in dirs);
    var r := fs.Execute(op, call);
    if r.Raised? {
      return Some(r.error);
    }
    op := Deosify(p, p in fs.entries && p !in dirs);
    r := fs.Execute(op, call);
    err := if r.Raised? then Some(r.error) else None;
  }

  /**
   * A file that is renamed is no longer there when `deosify` looks at
   * the original path: a `._x.JPEG` file is renamed to `._x.jpg` and not
   * deleted.
   */
  lemma RenamedLitterSurvives(entries: map<Path, FsOps.Times>, dirs: set<Path>, p: Path, call: FsOps.CustomFn)
    requires IsFile(entries, dirs, p) && FixedPath(p) != p && FixedPath(p) !in entries
    ensures var r := RunOneStep(entries, dirs, p, call);
      r.0 == None && p !in r.1 && FixedPath(p) in r.1
  {
  }

  /** A normalised file that is not litter is left untouched. */
  lemma CleanFileUntouched(entries: map<Path, FsOps.Times>, dirs: set<Path>, p: Path, call: FsOps.CustomFn)
    requires FixedPath(p) == p && !OsxLitter(p.name)
    ensures RunOneStep(entries, dirs, p, call) == (None, entries)
  {
  }

  /** Litter with a normalised name is handed to `execute` as a delete, which it does not implement. */
  lemma LitterReachesDelete(entries: map<Path, FsOps.Times>, dirs: set<Path>, p: Path, call: FsOps.CustomFn)
    requires IsFile(entries, dirs, p) && FixedPath(p) == p && OsxLitter(p.name)
    ensures RunOneStep(entries, dirs, p, call) == (Some(FsOps.NotImplemented(FsOps.Delete(p))), entries)
  {
  }

  // ---------------------------------------------------------------------
  // `_strip_hidden`
  // ---------------------------------------------------------------------

  /** A name starting with a dot (`os.walk` never yields an empty name). */
  predicate Hidden(name: string)
  {
    |name| > 0 && name[0] == '.'
  }

  /** `list.remove(x)`: drop the first occurrence of `x`, if any. */
  function RemoveFirst(s: seq<string>, x: string): (r: seq<string>)
    ensures x in s ==> |r| == |s| - 1
    ensures x !in s ==> r == s
    ensures multiset(r) == multiset(s) - multiset{x}
  {
    if s == [] then []
    else
      assert s == [s[0]] + s[1..];
      if s[0] == x then s[1..] else [s[0]] + RemoveFirst(s[1..], x)
  }

  /**
   * The list `_strip_hidden` leaves, from iterator position `i` on: a
   * hidden name at the position is removed, which moves the next name
   * under the position the iterator then leaves.
   */
  function Stripped(l: seq<string>, i: nat): (r: seq<string>)
    decreases |l| + 1 - i
  {
    if i >= |l| then l
    else if Hidden(l[i]) then Stripped(RemoveFirst(l, l[i]), i + 1)
    else Stripped(l, i + 1)
  }

  /** `_strip_hidden`, as written: it removes from the list while iterating over it. */
  method StripHidden(l: seq<string>) returns (r: seq<string>)
    ensures r == Stripped(l, 0)
  {
    r := l;
    var i := 0;
    while i < |r|
      invariant Stripped(r, i) == Stripped(l, 0)
      decreases |r| + 1 - i
    {
      if Hidden(r[i]) {
        r := RemoveFirst(r, r[i]);
      }
      i := i + 1;
    }
  }

  /** The stripped list never loses a visible name, and only ever drops names. */
  lemma {:induction false} StrippedKeepsVisible(l: seq<string>, i: nat)
    ensures forall x :: x in l && !Hidden(x) ==> multiset(Stripped(l, i))[x] == multiset(l)[x]
    ensures multiset(Stripped(l, i)) <= multiset(l)
    decreases |l| + 1 - i
  {
    if i < |l| {
      if Hidden(l[i]) {
        StrippedKeepsVisible(RemoveFirst(l, l[i]), i + 1);
      } else {
        StrippedKeepsVisible(l, i + 1);
      }
    }
  }

  /** What `_strip_hidden` is for: the names that do not start with a dot. */
  function Visible(l: seq<string>): (r: seq<string>)
    ensures multiset(r) <= multiset(l)
    ensures forall x :: x in r ==> !Hidden(x)
  {
    if l == [] then []
    else
      assert l == [l[0]] + l[1..];
      (if Hidden(l[0]) then [] else [l[0]]) + Visible(l[1..])
  }

  lemma {:induction false} InVisible(l: seq<string>, x: string)
    ensures x in Visible(l) <==> x in l && !Hidden(x)
  {
    if l != [] {
      InVisible(l[1..], x);
      assert l == [l[0]] + l[1..];
    }
  }

  /** Two hidden names in a row: the second survives the as-written strip. */
  lemma StripHiddenSkipsNext()
    ensures Stripped([".a", ".b"], 0) == [".b"]
    ensures Visible([".a", ".b"]) == []
  {
    var l := [".a", ".b"];
    assert Hidden(l[0]) && Hidden(l[1]);
    assert RemoveFirst(l, ".a") == [".b"];
    assert Stripped([".b"], 1) == [".b"];
  }

  /** Which of the two lists a skip-hidden walk keeps. */
  function Strip(names: seq<string>, skipHidden: bool, reading: FsOps.Reading): seq<string>
  {
    if !skipHidden then names
    else if reading == FsOps.AsWritten then Stripped(names, 0)
    else Visible(names)
  }

  // ---------------------------------------------------------------------
  // `run`
  // ---------------------------------------------------------------------

  /** The children of one walked directory: its sub-directories, then its files. */
  function StepPaths(step: FsOps.WalkStep, skipHidden: bool, reading: FsOps.Reading): (r: seq<Path>)
  {
    Under(step.0, Strip(step.1, skipHidden, reading) + Strip(step.2, skipHidden, reading))
  }

  function WalkPaths(steps: seq<FsOps.WalkStep>, skipHidden: bool, reading: FsOps.Reading): seq<Path>
  {
    if steps == [] then [] else StepPaths(steps[0], skipHidden, reading) + WalkPaths(steps[1..], skipHidden, reading)
  }

  /** The paths `run` hands to `run_one`, in order. */
  function Visits(paths: seq<Path>, recurse: bool, skipHidden: bool, walk: Path -> seq<FsOps.WalkStep>,
                  reading: FsOps.Reading): (r: seq<Path>)
    ensures !recurse ==> r == paths
  {
    if paths == [] then []
    else (if recurse then WalkPaths(walk(paths[0]), skipHidden, reading) else [paths[0]])
         + Visits(paths[1..], recurse, skipHidden, walk, reading)
  }

  /** `run_one` over paths in order, stopping at the first error. */
  function RunAll(entries: map<Path, FsOps.Times>, dirs: set<Path>, ps: seq<Path>, call: FsOps.CustomFn)
    : (r: (Option<FsOps.ExecError>, map<Path, FsOps.Times>))
    decreases |ps|
  {
    if ps == [] then (None, entries)
    else
      var s := RunOneStep(entries, dirs, ps[0], call);
      if s.0.Some? then s else RunAll(s.1, dirs, ps[1..], call)
  }

  lemma {:induction false} RunAllAppend(entries: map<Path, FsOps.Times>, dirs: set<Path>, a: seq<Path>, b: seq<Path>,
                                        call: FsOps.CustomFn)
    ensures RunAll(entries, dirs, a + b, call) ==
      (var s := RunAll(entries, dirs, a, call); if s.0.Some? then s else RunAll(s.1, dirs, b, call))
    decreases |a|
  {
    if a == [] {
      assert a + b == b;
    } else {
      assert (a + b)[1..] == a[1..] + b;
      var s := RunOneStep(entries, dirs, a[0], call);
      if s.0.None? {
        RunAllAppend(s.1, dirs, a[1..], b, call);
      }
    }
  }

  /** Without errors, a run over clean files changes nothing. */
  lemma {:induction false} CleanRun(entries: map<Path, FsOps.Times>, dirs: set<Path>, ps: seq<Path>, call: FsOps.CustomFn)
    requires forall p :: p in ps ==> FixedPath(p) == p && !OsxLitter(p.name)
    ensures RunAll(entries, dirs, ps, call) == (None, entries)
    decreases |ps|
  {
    if ps != [] {
      CleanFileUntouched(entries, dirs, ps[0], call);
      CleanRun(entries, dirs, ps[1..], call);
    }
  }

  /** With the intended strip, a skip-hidden walk never visits a hidden name. */
  lemma {:induction false} WalkSkipsHidden(steps: seq<FsOps.WalkStep>, p: Path)
    requires p in WalkPaths(steps, true, FsOps.Intended)
    ensures !Hidden(p.name)
  {
    var s := steps[0];
    var here := StepPaths(s, true, FsOps.Intended);
    if p in here {
      var names := Visible(s.1) + Visible(s.2);
      var k :| 0 <= k < |here| && here[k] == p;
      assert p.name == names[k];
      assert names[k] in Visible(s.1) || names[k] in Visible(s.2);
    } else {
      WalkSkipsHidden(steps[1..], p);
    }
  }

  /** `run_one` on each path, stopping at the first error. */
  method RunPaths(fs: FsOps.Filesystem, dirs: set<Path>, ps: seq<Path>, call: FsOps.CustomFn)
    returns (err: Option<FsOps.ExecError>)
    modifies fs
    ensures (err, fs.entries) == RunAll(old(fs.entries), dirs, ps, call)
  {
    for i := 0 to |ps|
      invariant RunAll(old(fs.entries), dirs, ps, call) == RunAll(fs.entries, dirs, ps[i..], call)
    {
      assert ps[i..][1..] == ps[i + 1..];
      err := RunOne(fs, dirs, ps[i], call);
      if err.Some? {
        return;
      }
    }
    assert ps[|ps|..] == [];
    err := None;
  }

  /** The children `run` builds for one walked directory, stripping as written or as intended. */
  method Children(step: FsOps.WalkStep, skipHidden: bool, reading: FsOps.Reading) returns (children: seq<Path>)
    ensures children == StepPaths(step, skipHidden, reading)
  {
    var dirnames := step.1;
    var filenames := step.2;
    if skipHidden {
      if reading == FsOps.AsWritten {
        dirnames := StripHidden(dirnames);
        filenames := StripHidden(filenames);
      } else {
        dirnames := Visible(dirnames);
        filenames := Visible(filenames);
      }
    }
    children := Under(step.0, dirnames + filenames);
  }

  /** `run` on one walk: every walked directory's children, in order. */
  method RunWalk(fs: FsOps.Filesystem, dirs: set<Path>, steps: seq<FsOps.WalkStep>, skipHidden: bool,
                 reading: FsOps.Reading, call: FsOps.CustomFn)
    returns (err: Option<FsOps.ExecError>)
    modifies fs
    ensures (err, fs.entries) == RunAll(old(fs.entries), dirs, WalkPaths(steps, skipHidden, reading), call)
  {
    for k := 0 to |steps|
      invariant RunAll(old(fs.entries), dirs, WalkPaths(steps, skipHidden, reading), call)
             == RunAll(fs.entries, dirs, WalkPaths(steps[k..], skipHidden, reading), call)
    {
      assert steps[k..][1..] == steps[k + 1..];
      var children := Children(steps[k], skipHidden, reading);
      RunAllAppend(fs.entries, dirs, children, WalkPaths(steps[k + 1..], skipHidden, reading), call);
      err := RunPaths(fs, dirs, children, call);
      if err.Some? {
        return;
      }
    }
    assert steps[|steps|..] == [];
    err := None;
  }

  /**
   * `OCDFilesystemLinter.run`: each path on its own, or, with `recurse`,
   * every entry of its walk; the first error `execute` raises ends the run.
   */
  method Run(fs: FsOps.Filesystem, dirs: set<Path>, paths: seq<Path>, recurse: bool, skipHidden: bool,
             walk: Path -> seq<FsOps.WalkStep>, reading: FsOps.Reading, call: FsOps.CustomFn)
    returns (err: Option<FsOps.ExecError>)
    modifies fs
    ensures (err, fs.entries) == RunAll(old(fs.entries), dirs, Visits(paths, recurse, skipHidden, walk, reading), call)
  {
    for i := 0 to |paths|
      invariant RunAll(old(fs.entries), dirs, Visits(paths, recurse, skipHidden, walk, reading), call)
             == RunAll(fs.entries, dirs, Visits(paths[i..], recurse, skipHidden, walk, reading), call)
    {
      assert paths[i..][1..] == paths[i + 1..];
      var rest := Visits(paths[i + 1..], recurse, skipHidden, walk, reading);
      if !recurse {
        RunAllAppend(fs.entries, dirs, [paths[i]], rest, call);
        err := RunOne(fs, dirs, paths[i], call);
      } else {
        RunAllAppend(fs.entries, dirs, WalkPaths(walk(paths[i]), skipHidden, reading), rest, call);
        err := RunWalk(fs, dirs, walk(paths[i]), skipHidden, reading, call);
      }
      if err.Some? {
        return;
      }
    }
    assert paths[|paths|..] == [];
    err := None;
  }
}
