/**
 * The file-system helpers of the media tools: collecting the files named
 * by command-line targets, the directory walk, and the "safe" write, copy
 * and move that never clobber an existing file unless asked to.
 *
 * The disk is a map from paths to file contents plus the set of directory
 * names; random file-name tokens are supplied by the caller.
 */
module Disk {
  import opened Common
  import opened Strings
  import opened Paths

  datatype FsError = NoSuchFile(path: Path) | CandidatesExhausted

  datatype CopyOrMove = Copy | Move

  class FileSystem {
    var files: map<Path, seq<byte>>
    var dirs: set<string>

    constructor(files0: map<Path, seq<byte>>, dirs0: set<string>)
      ensures files == files0 && dirs == dirs0
    {
      files := files0;
      dirs := dirs0;
    }

    /** `Path.exists()`: a file or a directory is there. */
    predicate Exists(p: Path)
      reads this
    {
      p in files || ToString(p) in dirs
    }

    /**
     * `safe_write_bytes`: write to `dst` when it is absent or `overwrite`
     * is set, otherwise to one alternative name, which is not checked again.
     */
    method SafeWriteBytes(data: seq<byte>, dst: Path, overwrite: bool, token: string)
      returns (written: Path)
      modifies this
      ensures written == (if old(Exists(dst)) && !overwrite then AlternativeFilename(dst, token) else dst)
      ensures files == old(files)[written := data]
      ensures dirs == old(dirs)
    {
      written := dst;
      if Exists(dst) && !overwrite {
        written := AlternativeFilename(dst, token);
      }
      files := files[written := data];
    }

    /**
     * `_safe_cp_or_mv`: create the destination's parent, pick the first
     * usable candidate (the destination, then alternatives built from the
     * supplied tokens), then copy or move the source there.
     */
    method SafeCopyOrMove(source: Path, destination: Path, op: CopyOrMove, overwrite: bool, tokens: seq<string>)
      returns (r: Result<Path, FsError>)
      modifies this
      ensures dirs == old(dirs) + {destination.parent}
      ensures r == FirstUsable(Candidates(destination, tokens), overwrite, old(files).Keys, dirs)
                   .MapToResult(source, old(files))
      ensures r.Ok? ==> files == Transfer(old(files), source, r.value, op)
      ensures r.Err? ==> files == old(files)
    {
      dirs := dirs + {destination.parent};
      var cands := Candidates(destination, tokens);
      ghost var keys := files.Keys;
      var i := 0;
      while i < |cands| && !overwrite && Exists(cands[i])
        invariant 0 <= i <= |cands|
        invariant files == old(files) && dirs == old(dirs) + {destination.parent}
        invariant FirstUsable(cands, overwrite, keys, dirs) == FirstUsable(cands[i..], overwrite, keys, dirs)
      {
        assert cands[i..][1..] == cands[i + 1..];
        i := i + 1;
      }
      if i == |cands| {
        assert cands[i..] == [];
        r := Err(CandidatesExhausted);
        return;
      }
      assert FirstUsable(cands[i..], overwrite, keys, dirs) == Chosen(cands[i]);
      if source !in files {
        r := Err(NoSuchFile(source));
        return;
      }
      var dst := cands[i];
      files := Transfer(files, source, dst, op);
      r := Ok(dst);
    }

    /** `safe_mv`. */
    method SafeMove(source: Path, destination: Path, overwrite: bool, tokens: seq<string>)
      returns (r: Result<Path, FsError>)
      modifies this
      ensures dirs == old(dirs) + {destination.parent}
      ensures r == FirstUsable(Candidates(destination, tokens), overwrite, old(files).Keys, dirs)
                   .MapToResult(source, old(files))
      ensures r.Ok? ==> files == Transfer(old(files), source, r.value, Move)
      ensures r.Err? ==> files == old(files)
    {
      r := SafeCopyOrMove(source, destination, Move, overwrite, tokens);
    }

    /** `safe_cp`. */
    method SafeCopy(source: Path, destination: Path, overwrite: bool, tokens: seq<string>)
      returns (r: Result<Path, FsError>)
      modifies this
      ensures dirs == old(dirs) + {destination.parent}
      ensures r == FirstUsable(Candidates(destination, tokens), overwrite, old(files).Keys, dirs)
                   .MapToResult(source, old(files))
      ensures r.Ok? ==> files == Transfer(old(files), source, r.value, Copy)
      ensures r.Err? ==> files == old(files)
    {
      r := SafeCopyOrMove(source, destination, Copy, overwrite, tokens);
    }
  }

  /** `posible_filenames`, cut to the tokens supplied. */
  function Candidates(destination: Path, tokens: seq<string>): (r: seq<Path>)
    ensures |r| == |tokens| + 1 && r[0] == destination
    ensures forall i :: 0 < i < |r| ==> r[i] == AlternativeFilename(destination, tokens[i - 1])
  {
    [destination] + seq(|tokens|, i requires 0 <= i < |tokens| => AlternativeFilename(destination, tokens[i]))
  }

  datatype Choice = Chosen(path: Path) | NoneFree
  {
    function MapToResult(source: Path, files: map<Path, seq<byte>>): Result<Path, FsError>
    {
      match this
      case NoneFree => Err(CandidatesExhausted)
      case Chosen(p) => if source in files then Ok(p) else Err(NoSuchFile(source))
    }
  }

  /** The first candidate that may be written: any with `overwrite`, else the first absent one. */
  function FirstUsable(cands: seq<Path>, overwrite: bool, files: set<Path>, dirs: set<string>): (c: Choice)
    ensures c.Chosen? ==> c.path in cands
    ensures c.Chosen? && !overwrite ==> c.path !in files && ToString(c.path) !in dirs
    ensures overwrite && cands != [] ==> c == Chosen(cands[0])
    ensures c.NoneFree? <==> cands == [] || (!overwrite && forall p :: p in cands ==> p in files || ToString(p) in dirs)
  {
    if cands == [] then NoneFree
    else if overwrite || !(cands[0] in files || ToString(cands[0]) in dirs) then Chosen(cands[0])
    else FirstUsable(cands[1..], overwrite, files, dirs)
  }

  /** The files after copying or moving `source` to `dst`. */
  function Transfer(files: map<Path, seq<byte>>, source: Path, dst: Path, op: CopyOrMove): (r: map<Path, seq<byte>>)
    requires source in files
    ensures dst in r && r[dst] == files[source]
    ensures op == Copy ==> r == files[dst := files[source]]
    ensures op == Move ==> r.Keys == files.Keys - {source} + {dst}
    ensures forall p :: p in files && p != source && p != dst ==> p in r && r[p] == files[p]
  {
    if op == Copy then files[dst := files[source]]
    else (files - {source})[dst := files[source]]
  }

  /** Without `overwrite`, a successful copy or move never replaces an existing file. */
  lemma NeverClobbers(cands: seq<Path>, files: map<Path, seq<byte>>, dirs: set<string>, source: Path, op: CopyOrMove)
    requires source in files
    requires FirstUsable(cands, false, files.Keys, dirs).Chosen?
    ensures var dst := FirstUsable(cands, false, files.Keys, dirs).path;
      dst !in files && forall p :: p in files ==> p in Transfer(files, source, dst, op) || (op == Move && p == source)
  {
  }

  // ---------------------------------------------------------------------
  // iter_files_in_targets

  datatype TargetKind = Missing | RegularFile | Directory | OtherKind

  datatype TargetEvent = Yielded(file: Path) | Reported(message: string)

  /** What one target contributes, in order. */
  function TargetEvents(t: Path, kind: TargetKind, walkFiles: seq<Path>, recursive: bool): (r: seq<TargetEvent>)
    ensures kind == RegularFile ==> r == [Yielded(t)]
    ensures kind == Directory && recursive ==> |r| == |walkFiles| && forall i :: 0 <= i < |r| ==> r[i] == Yielded(walkFiles[i])
    ensures kind != RegularFile && !(kind == Directory && recursive) ==> |r| == 1 && r[0].Reported?
  {
    match kind
    case Missing => [Reported(ToString(t) + ": no such file or directory")]
    case RegularFile => [Yielded(t)]
    case Directory =>
      if recursive then seq(|walkFiles|, i requires 0 <= i < |walkFiles| => Yielded(walkFiles[i]))
      else [Reported(ToString(t) + ": Is a directory, use --recursive?")]
    case OtherKind => [Reported(ToString(t) + ": unknow type")]
  }

  function AllTargetEvents(targets: seq<Path>, kind: Path -> TargetKind, walk: Path -> seq<Path>, recursive: bool): seq<TargetEvent>
  {
    if targets == [] then []
    else AllTargetEvents(targets[..|targets| - 1], kind, walk, recursive)
         + TargetEvents(targets[|targets| - 1], kind(targets[|targets| - 1]), walk(targets[|targets| - 1]), recursive)
  }

  /** The files `iter_files_in_targets` yields. */
  function YieldedFiles(events: seq<TargetEvent>): seq<Path>
  {
    if events == [] then []
    else YieldedFiles(events[..|events| - 1])
         + (if events[|events| - 1].Yielded? then [events[|events| - 1].file] else [])
  }

  /**
   * `iter_files_in_targets`: walk the targets in order; the events are the
   * yielded files and the messages handed to the error handler. `kind` and
   * `walk` stand for the file-system queries and the directory walk.
   */
  method IterFilesInTargets(targets: seq<Path>, kind: Path -> TargetKind, walk: Path -> seq<Path>, recursive: bool)
    returns (events: seq<TargetEvent>)
    ensures events == AllTargetEvents(targets, kind, walk, recursive)
  {
    events := [];
    for i := 0 to |targets|
      invariant events == AllTargetEvents(targets[..i], kind, walk, recursive)
    {
      var t := targets[i];
      assert targets[..i + 1][..i] == targets[..i];
      match kind(t)
      case Missing =>
        events := events + [Reported(ToString(t) + ": no such file or directory")];
      case RegularFile =>
        events := events + [Yielded(t)];
      case Directory =>
        if recursive {
          var files := walk(t);
          for j := 0 to |files|
            invariant events == AllTargetEvents(targets[..i], kind, walk, recursive)
                                + seq(j, k requires 0 <= k < j => Yielded(files[k]))
          {
            events := events + [Yielded(files[j])];
          }
        } else {
          events := events + [Reported(ToString(t) + ": Is a directory, use --recursive?")];
        }
      case OtherKind =>
        events := events + [Reported(ToString(t) + ": unknow type")];
    }
    assert targets[..|targets|] == targets;
  }

  /** A missing or non-file target is never yielded; only files of the walk or the target itself are. */
  lemma {:induction false} YieldedComeFromTargets(targets: seq<Path>, kind: Path -> TargetKind, walk: Path -> seq<Path>, recursive: bool, p: Path)
    requires p in YieldedFiles(AllTargetEvents(targets, kind, walk, recursive))
    ensures exists t :: t in targets && ((kind(t) == RegularFile && p == t) || (kind(t) == Directory && recursive && p in walk(t)))
  {
    var n := |targets|;
    var front := AllTargetEvents(targets[..n - 1], kind, walk, recursive);
    var t := targets[n - 1];
    var last := TargetEvents(t, kind(t), walk(t), recursive);
    YieldedAppend(front, last);
    if p in YieldedFiles(front) {
      YieldedComeFromTargets(targets[..n - 1], kind, walk, recursive, p);
      var u :| u in targets[..n - 1] && ((kind(u) == RegularFile && p == u) || (kind(u) == Directory && recursive && p in walk(u)));
      assert u in targets;
    } else {
      assert p in YieldedFiles(last);
      YieldedOfTarget(t, kind(t), walk(t), recursive, p);
    }
  }

  lemma {:induction false} YieldedAppend(a: seq<TargetEvent>, b: seq<TargetEvent>)
    ensures YieldedFiles(a + b) == YieldedFiles(a) + YieldedFiles(b)
    decreases |b|
  {
    if b == [] {
      assert a + b == a;
    } else {
      assert (a + b)[..|a + b| - 1] == a + b[..|b| - 1];
      YieldedAppend(a, b[..|b| - 1]);
    }
  }

  lemma YieldedOfTarget(t: Path, kind: TargetKind, files: seq<Path>, recursive: bool, p: Path)
    requires p in YieldedFiles(TargetEvents(t, kind, files, recursive))
    ensures (kind == RegularFile && p == t) || (kind == Directory && recursive && p in files)
  {
    var ev := TargetEvents(t, kind, files, recursive);
    YieldedIn(ev, p);
  }

  lemma {:induction false} YieldedIn(ev: seq<TargetEvent>, p: Path)
    requires p in YieldedFiles(ev)
    ensures Yielded(p) in ev
  {
    var n := |ev|;
    if p in YieldedFiles(ev[..n - 1]) {
      YieldedIn(ev[..n - 1], p);
    }
  }

  // ---------------------------------------------------------------------
  // walk

  /** The names `walk` removes from `dirs` after yielding: `set(dirs) - {x.name for x in dirs2}`. */
  function WalkExclusions(root: string, dirs: seq<string>): (r: set<string>)
  {
    var dirs2 := seq(|dirs|, i requires 0 <= i < |dirs| => Path(root, dirs[i]));
    (set d | d in dirs) - (set x | x in dirs2 :: x.name)
  }

  /** The exclusion set is always empty, so the walk descends into every subdirectory. */
  lemma WalkNeverPrunes(root: string, dirs: seq<string>)
    ensures WalkExclusions(root, dirs) == {}
  {
    var dirs2 := seq(|dirs|, i requires 0 <= i < |dirs| => Path(root, dirs[i]));
    forall d | d in dirs ensures d in (set x | x in dirs2 :: x.name) {
      var i :| 0 <= i < |dirs| && dirs[i] == d;
      assert dirs2[i].name == d;
    }
  }
}
