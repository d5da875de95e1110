/**
 * `fix-extensions`: each file's name is run through a chain of path
 * transforms (lowercase the suffix, then map jpeg, mpeg and tif to their
 * short forms) and the file is moved, never over an existing one, when
 * the chain changed its path.
 */
module FilesystemFixes {
  import opened Common
  import opened Strings
  import opened Paths
  import Disk

  /** `lowercase_extension_tr`. */
  function LowercaseExtension(p: Path): (r: Path)
    ensures r.parent == p.parent
    ensures Suffix(p) == [] ==> r == p
  {
    StemSuffix(p);
    Path(p.parent, Stem(p) + Lower(Suffix(p)))
  }

  /** Only the suffix changes, and it becomes its lowercase form. */
  lemma LowercaseExtensionShape(p: Path)
    requires Suffix(p) != []
    ensures Stem(LowercaseExtension(p)) == Stem(p)
    ensures Suffix(LowercaseExtension(p)) == Lower(Suffix(p))
  {
    LowerSuffixShape(Suffix(p));
    ReplaceSuffix(p, Lower(Suffix(p)));
  }

  lemma LowercaseExtensionIdempotent(p: Path)
    ensures LowercaseExtension(LowercaseExtension(p)) == LowercaseExtension(p)
  {
    if Suffix(p) != [] {
      LowercaseExtensionShape(p);
      LowerIdempotent(Suffix(p));
    }
  }

  /** `replace_extension_tr`: a case-sensitive match of the dot-less extension. */
  function ReplaceExtension(p: Path, haystack: seq<string>, repl: string): (r: Path)
    ensures Extension(p) !in haystack ==> r == p
    ensures Extension(p) in haystack ==> r == ChangeExtension(p, repl)
  {
    if Extension(p) in haystack then Path(p.parent, Stem(p) + "." + repl) else p
  }

  /** The three `functools.partial(replace_extension_tr, ...)` of the chain. */
  function JpegTr(p: Path): Path { ReplaceExtension(p, ["jpeg"], "jpg") }
  function MpegTr(p: Path): Path { ReplaceExtension(p, ["mpeg"], "mpg") }
  function TifTr(p: Path): Path { ReplaceExtension(p, ["tif"], "tiff") }

  /** The chain `fix_extensions_cmd` builds, in its order. */
  const DefaultTransforms: seq<Path -> Path> := [LowercaseExtension, JpegTr, MpegTr, TifTr]

  /** The path after the transforms, applied first to last. */
  function Fold(trs: seq<Path -> Path>, p: Path): Path
  {
    if trs == [] then p else trs[|trs| - 1](Fold(trs[..|trs| - 1], p))
  }

  /** The three replacements, after lowercasing. */
  function Replacements(l: Path): Path
  {
    TifTr(MpegTr(JpegTr(l)))
  }

  /** The path the default chain produces. */
  function Pipeline(p: Path): Path
  {
    Fold(DefaultTransforms, p)
  }

  lemma PipelineSteps(p: Path)
    ensures Pipeline(p) == Replacements(LowercaseExtension(p))
  {
    var t0: seq<Path -> Path> := [LowercaseExtension];
    var t1 := t0 + [JpegTr];
    var t2 := t1 + [MpegTr];
    assert DefaultTransforms == t2 + [TifTr];
    FoldSnoc([], LowercaseExtension, p);
    assert [] + [LowercaseExtension] == t0;
    FoldSnoc(t0, JpegTr, p);
    FoldSnoc(t1, MpegTr, p);
    FoldSnoc(t2, TifTr, p);
  }

  lemma FoldSnoc(trs: seq<Path -> Path>, t: Path -> Path, p: Path)
    ensures Fold(trs + [t], p) == t(Fold(trs, p))
  {
    assert (trs + [t])[..|trs|] == trs;
  }

  /** The long forms the replacements shorten. */
  predicate LongForm(e: string)
  {
    e == "jpeg" || e == "mpeg" || e == "tif"
  }

  /** A path the pipeline leaves alone: lowercase suffix, none of the long forms. */
  predicate Settled(p: Path)
  {
    Lower(Suffix(p)) == Suffix(p) && !LongForm(Extension(p))
  }

  lemma SettledIsFixed(p: Path)
    requires Settled(p)
    ensures Pipeline(p) == p
  {
    PipelineSteps(p);
    StemSuffix(p);
  }

  /** What lowercasing leaves for the replacements. */
  lemma Lowered(p: Path)
    requires p.name != [] && Suffix(p) != []
    ensures var l := LowercaseExtension(p);
      l.name != [] && l.parent == p.parent && Stem(l) == Stem(p) &&
      Suffix(l) == Lower(Suffix(p)) && Suffix(l) == "." + Extension(l) && Lower(Suffix(l)) == Suffix(l)
  {
    var l := LowercaseExtension(p);
    LowercaseExtensionShape(p);
    LowerIdempotent(Suffix(p));
    StemSuffix(l);
  }

  lemma ReplacesJpeg(l: Path)
    requires l.name != [] && Extension(l) == "jpeg"
    ensures Replacements(l) == ChangeExtension(l, "jpg")
  {
    ChangeExtensionSuffix(l, "jpg");
  }

  lemma ReplacesMpeg(l: Path)
    requires l.name != [] && Extension(l) == "mpeg"
    ensures Replacements(l) == ChangeExtension(l, "mpg")
  {
    ChangeExtensionSuffix(l, "mpg");
  }

  lemma ReplacesTif(l: Path)
    requires l.name != [] && Extension(l) == "tif"
    ensures Replacements(l) == ChangeExtension(l, "tiff")
  {
    ChangeExtensionSuffix(l, "tiff");
  }

  lemma ReplacesNothing(l: Path)
    requires !LongForm(Extension(l))
    ensures Replacements(l) == l
  {
    assert JpegTr(l) == l by { assert Extension(l) !in ["jpeg"]; }
    assert MpegTr(l) == l by { assert Extension(l) !in ["mpeg"]; }
    assert TifTr(l) == l by { assert Extension(l) !in ["tif"]; }
  }

  /** The short forms are settled and match no replacement. */
  lemma ShortForm(ext: string)
    requires ext == "jpg" || ext == "mpg" || ext == "tiff"
    ensures ext != [] && '.' !in ext && !LongForm(ext)
    ensures forall i :: 0 <= i < |ext| ==> !('A' <= ext[i] <= 'Z')
  {
  }

  /** A path lowercasing settles, and its result, in each case of the suffix. */
  lemma PipelineResult(p: Path)
    ensures Suffix(p) == [] ==> Pipeline(p) == p
    ensures Suffix(p) != [] ==> Pipeline(p).parent == p.parent && Stem(Pipeline(p)) == Stem(p)
    ensures Settled(Pipeline(p))
  {
    PipelineSteps(p);
    if Suffix(p) == [] {
      PipelineNoSuffix(p);
    } else {
      Lowered(p);
      ReplacedSettled(LowercaseExtension(p));
    }
  }

  /** Without a suffix there is nothing to lowercase or replace. */
  lemma PipelineNoSuffix(p: Path)
    requires Suffix(p) == []
    ensures Replacements(LowercaseExtension(p)) == p && Settled(p)
  {
    assert LowercaseExtension(p) == p;
    assert Extension(p) == [];
    ReplacesNothing(p);
    assert Lower(Suffix(p)) == Suffix(p);
  }

  /** After lowercasing, the replacements keep the folder and stem and leave a settled path. */
  lemma ReplacedSettled(l: Path)
    requires l.name != [] && Lower(Suffix(l)) == Suffix(l)
    ensures var r := Replacements(l); r.parent == l.parent && Stem(r) == Stem(l) && Settled(r)
  {
    var e := Extension(l);
    var ext: string;
    if e == "jpeg" {
      ReplacesJpeg(l);
      ext := "jpg";
    } else if e == "mpeg" {
      ReplacesMpeg(l);
      ext := "mpg";
    } else if e == "tif" {
      ReplacesTif(l);
      ext := "tiff";
    } else {
      ReplacesNothing(l);
      return;
    }
    ReplacedWith(l, ext);
  }

  /** A replacement by a short form keeps the folder and stem and leaves a settled path. */
  lemma ReplacedWith(l: Path, ext: string)
    requires l.name != [] && (ext == "jpg" || ext == "mpg" || ext == "tiff")
    ensures var r := ChangeExtension(l, ext); r.parent == l.parent && Stem(r) == Stem(l) && Settled(r)
  {
    ShortForm(ext);
    FinalSuffix(l, ext);
  }

  /**
   * Lowercasing runs first, so any case of .jpeg, .mpeg and .tif ends as
   * .jpg, .mpg and .tiff.
   */
  lemma PipelineLongForm(p: Path, long: string, short: string)
    requires p.name != []
    requires (long == "jpeg" && short == "jpg") || (long == "mpeg" && short == "mpg") || (long == "tif" && short == "tiff")
    requires Lower(Suffix(p)) == "." + long
    ensures Suffix(Pipeline(p)) == "." + short
    ensures Stem(Pipeline(p)) == Stem(p) && Pipeline(p).parent == p.parent
  {
    var l := LowercaseExtension(p);
    assert Suffix(p) != [];
    assert l.name != [] && Stem(l) == Stem(p) && l.parent == p.parent && Extension(l) == long by {
      Lowered(p);
      DotTail(Extension(l));
      DotTail(long);
    }
    assert Pipeline(p) == ChangeExtension(l, short) by {
      PipelineSteps(p);
      if long == "jpeg" {
        ReplacesJpeg(l);
      } else if long == "mpeg" {
        ReplacesMpeg(l);
      } else {
        ReplacesTif(l);
      }
    }
    ShortForm(short);
    ChangeExtensionSuffix(l, short);
  }

  /** Every other suffix is just lowercased. */
  lemma PipelineOtherSuffix(p: Path)
    requires p.name != [] && Suffix(p) != []
    requires Lower(Suffix(p)) !in [".jpeg", ".mpeg", ".tif"]
    ensures Pipeline(p) == LowercaseExtension(p)
  {
    PipelineSteps(p);
    NotLongForm(p);
    ReplacesNothing(LowercaseExtension(p));
  }

  /** A lowercased suffix other than the long forms leaves an extension no replacement matches. */
  lemma NotLongForm(p: Path)
    requires p.name != [] && Suffix(p) != []
    requires Lower(Suffix(p)) !in [".jpeg", ".mpeg", ".tif"]
    ensures !LongForm(Extension(LowercaseExtension(p)))
  {
    Lowered(p);
    DotForms();
  }

  lemma DotForms()
    ensures "." + "jpeg" == ".jpeg" && "." + "mpeg" == ".mpeg" && "." + "tif" == ".tif"
  {
  }

  lemma DotTail(e: string)
    ensures ("." + e)[1..] == e
  {
  }

  /** After a replacement, the new extension is settled and no later step matches it. */
  lemma FinalSuffix(l: Path, ext: string)
    requires l.name != [] && ext != [] && '.' !in ext && !LongForm(ext)
    requires forall i :: 0 <= i < |ext| ==> !('A' <= ext[i] <= 'Z')
    ensures Suffix(ChangeExtension(l, ext)) == "." + ext
    ensures Stem(ChangeExtension(l, ext)) == Stem(l)
    ensures Settled(ChangeExtension(l, ext))
  {
    ChangeExtensionSuffix(l, ext);
    LowerOfLowercase("." + ext);
  }

  /** A string without ASCII capitals is its own lowercase form. */
  lemma LowerOfLowercase(s: string)
    requires forall i :: 0 <= i < |s| ==> !('A' <= s[i] <= 'Z')
    ensures Lower(s) == s
  {
  }

  lemma PipelineIdempotent(p: Path)
    ensures Pipeline(Pipeline(p)) == Pipeline(p)
  {
    PipelineResult(p);
    SettledIsFixed(Pipeline(p));
  }

  /** The files a chain of transforms changes, in order. */
  function Changed(files: seq<Path>, fix: Path -> Path): (r: seq<Path>)
    ensures |r| <= |files|
  {
    if files == [] then []
    else (if fix(files[0]) != files[0] then [files[0]] else []) + Changed(files[1..], fix)
  }

  lemma {:induction false} InChanged(files: seq<Path>, fix: Path -> Path, f: Path)
    ensures f in Changed(files, fix) <==> f in files && fix(f) != f
  {
    if files != [] {
      InChanged(files[1..], fix, f);
      assert files == [files[0]] + files[1..];
    }
  }

  lemma ChangedSnoc(files: seq<Path>, fix: Path -> Path, i: int)
    requires 0 <= i < |files|
    ensures Changed(files[..i + 1], fix) ==
      Changed(files[..i], fix) + (if fix(files[i]) != files[i] then [files[i]] else [])
  {
    assert files[..i + 1] == files[..i] + [files[i]];
    ChangedAppend(files[..i], [files[i]], fix);
  }

  lemma {:induction false} ChangedAppend(a: seq<Path>, b: seq<Path>, fix: Path -> Path)
    ensures Changed(a + b, fix) == Changed(a, fix) + Changed(b, fix)
  {
    if a == [] {
      assert a + b == b;
    } else {
      assert (a + b)[1..] == a[1..] + b;
      ChangedAppend(a[1..], b, fix);
    }
  }

  function Sources(attempts: seq<(Path, Result<Path, Disk.FsError>)>): (r: seq<Path>)
    ensures |r| == |attempts|
  {
    if attempts == [] then [] else [attempts[0].0] + Sources(attempts[1..])
  }

  /** Moving a file to an absent path keeps the number of files. */
  lemma MoveKeepsCount(files: map<Path, seq<byte>>, source: Path, dst: Path)
    requires source in files && dst !in files
    ensures |Disk.Transfer(files, source, dst, Disk.Move)| == |files|
  {
    var r := Disk.Transfer(files, source, dst, Disk.Move);
    assert r.Keys == files.Keys - {source} + {dst};
    assert |files.Keys - {source}| == |files.Keys| - 1;
    assert dst !in files.Keys - {source};
    assert |r.Keys| == |files.Keys|;
  }

  /** The disk after some iterations of `fix_extensions_cmd`, and the moves attempted so far. */
  datatype Fixing = Fixing(files: map<Path, seq<byte>>, dirs: set<string>, attempts: seq<(Path, Result<Path, Disk.FsError>)>)

  /** What `safe_mv(file, dst, overwrite=False)` returns on the disk `files`, `dirs`. */
  function MoveResult(files: map<Path, seq<byte>>, dirs: set<string>, file: Path, dst: Path, tokens: seq<string>): Result<Path, Disk.FsError>
  {
    Disk.FirstUsable(Disk.Candidates(dst, tokens), false, files.Keys, dirs + {dst.parent}).MapToResult(file, files)
  }

  /**
   * One iteration for `file`: skipped when `fix` leaves its path as it is,
   * otherwise moved, never over an existing file, and the attempt recorded.
   */
  function FixStep(f: Fixing, file: Path, fix: Path -> Path, tokens: Path -> seq<string>): Fixing
  {
    var dst := fix(file);
    if dst == file then f
    else
      var r := MoveResult(f.files, f.dirs, file, dst, tokens(file));
      Fixing(if r.Ok? && file in f.files then Disk.Transfer(f.files, file, r.value, Disk.Move) else f.files,
             f.dirs + {dst.parent}, f.attempts + [(file, r)])
  }

  /** `fix_extensions_cmd` over `files`, one iteration after the other. */
  function FixAll(f: Fixing, files: seq<Path>, fix: Path -> Path, tokens: Path -> seq<string>): Fixing
  {
    if files == [] then f
    else FixStep(FixAll(f, files[..|files| - 1], fix, tokens), files[|files| - 1], fix, tokens)
  }

  /** A successful move takes a present file to a free candidate of its new name. */
  lemma MoveResultFree(files: map<Path, seq<byte>>, dirs: set<string>, file: Path, dst: Path, tokens: seq<string>)
    ensures var r := MoveResult(files, dirs, file, dst, tokens);
      r.Ok? ==> file in files && r.value !in files && r.value in Disk.Candidates(dst, tokens)
  {
  }

  /**
   * One iteration never touches a file other than the one it moves: that
   * file is replaced by nothing, and every other file keeps its content.
   */
  lemma FixStepKeeps(f: Fixing, file: Path, fix: Path -> Path, tokens: Path -> seq<string>, p: Path)
    requires p in f.files && (p == file ==> fix(p) == p)
    ensures var g := FixStep(f, file, fix, tokens); p in g.files && g.files[p] == f.files[p]
  {
    if fix(file) != file {
      MoveResultFree(f.files, f.dirs, file, fix(file), tokens(file));
    }
  }

  /**
   * A file that `fix` leaves as it is, or that is not among the files
   * walked, stays at its path with its content: fixed names are never
   * moved and moves never overwrite.
   */
  lemma {:induction false} FixAllKeeps(f: Fixing, files: seq<Path>, fix: Path -> Path, tokens: Path -> seq<string>, p: Path)
    requires p in f.files && (p in files ==> fix(p) == p)
    ensures var g := FixAll(f, files, fix, tokens); p in g.files && g.files[p] == f.files[p]
  {
    if files != [] {
      var front := files[..|files| - 1];
      assert p in front ==> p in files;
      FixAllKeeps(f, front, fix, tokens, p);
      FixStepKeeps(FixAll(f, front, fix, tokens), files[|files| - 1], fix, tokens, p);
    }
  }

  /** No iteration changes the number of files. */
  lemma {:induction false} FixAllCount(f: Fixing, files: seq<Path>, fix: Path -> Path, tokens: Path -> seq<string>)
    ensures |FixAll(f, files, fix, tokens).files| == |f.files|
  {
    if files != [] {
      var front := files[..|files| - 1];
      var g := FixAll(f, front, fix, tokens);
      var file := files[|files| - 1];
      FixAllCount(f, front, fix, tokens);
      if fix(file) != file {
        var r := MoveResult(g.files, g.dirs, file, fix(file), tokens(file));
        MoveResultFree(g.files, g.dirs, file, fix(file), tokens(file));
        if r.Ok? {
          MoveKeepsCount(g.files, file, r.value);
        }
      }
    }
  }

  /** The inner loop of `fix_extensions_cmd`: `dst = fn(dst)` for each transform. */
  method ApplyAll(trs: seq<Path -> Path>, file: Path) returns (dst: Path)
    ensures dst == Fold(trs, file)
  {
    dst := file;
    for j := 0 to |trs|
      invariant dst == Fold(trs[..j], file)
    {
      FoldSnoc(trs[..j], trs[j], file);
      assert trs[..j + 1] == trs[..j] + [trs[j]];
      dst := trs[j](dst);
    }
    assert trs[..|trs|] == trs;
  }

  /**
   * `fix_extensions_cmd` over the files the targets yield: every file is
   * run through the default transforms; a file they leave unchanged is
   * skipped, any other is moved with `safe_mv` without overwrite (`tokens`
   * stand for the random names of the alternatives). Returns each
   * attempted move and its outcome.
   */
  method FixExtensionsCmd(fs: Disk.FileSystem, files: seq<Path>, tokens: Path -> seq<string>)
    returns (attempts: seq<(Path, Result<Path, Disk.FsError>)>)
    modifies fs
    ensures Fixing(fs.files, fs.dirs, attempts) == FixAll(Fixing(old(fs.files), old(fs.dirs), []), files, Chain(DefaultTransforms), tokens)
    ensures forall f :: f in Sources(attempts) <==> f in files && Pipeline(f) != f
    ensures AllLanded(attempts, Chain(DefaultTransforms), tokens)
    ensures forall p :: p in old(fs.files) && (p in files ==> Pipeline(p) == p) ==> p in fs.files && fs.files[p] == old(fs.files)[p]
    ensures |fs.files| == |old(fs.files)|
  {
    ghost var start := Fixing(fs.files, fs.dirs, []);
    attempts := FixFiles(fs, DefaultTransforms, files, tokens);
    forall f {
      InChanged(files, Chain(DefaultTransforms), f);
    }
    forall p | p in start.files && (p in files ==> Pipeline(p) == p)
      ensures p in fs.files && fs.files[p] == start.files[p]
    {
      FixAllKeeps(start, files, Chain(DefaultTransforms), tokens, p);
    }
  }

  /** The loop of `fix_extensions_cmd`, for any chain of transforms. */
  method FixFiles(fs: Disk.FileSystem, trs: seq<Path -> Path>, files: seq<Path>, tokens: Path -> seq<string>)
    returns (attempts: seq<(Path, Result<Path, Disk.FsError>)>)
    modifies fs
    ensures Fixing(fs.files, fs.dirs, attempts) == FixAll(Fixing(old(fs.files), old(fs.dirs), []), files, Chain(trs), tokens)
    ensures Sources(attempts) == Changed(files, Chain(trs))
    ensures AllLanded(attempts, Chain(trs), tokens)
    ensures |fs.files| == |old(fs.files)|
  {
    var fix := Chain(trs);
    ghost var start := Fixing(fs.files, fs.dirs, []);
    attempts := [];
    for i := 0 to |files|
      invariant Fixing(fs.files, fs.dirs, attempts) == FixAll(start, files[..i], fix, tokens)
      invariant Sources(attempts) == Changed(files[..i], fix)
      invariant AllLanded(attempts, fix, tokens)
    {
      ChangedSnoc(files, fix, i);
      assert files[..i + 1][..i] == files[..i];
      ghost var f := Fixing(fs.files, fs.dirs, attempts);
      var attempt := FixOne(fs, trs, files[i], tokens);
      if attempt.Some? {
        AllLandedSnoc(attempts, attempt.value, fix, tokens);
        SourcesAppend(attempts, [attempt.value]);
        assert Sources([attempt.value]) == [files[i]];
        attempts := attempts + [attempt.value];
      }
      assert Fixing(fs.files, fs.dirs, attempts) == FixStep(f, files[i], fix, tokens);
    }
    assert files[..|files|] == files;
    FixAllCount(start, files, fix, tokens);
  }

  /** The body of the loop for one file: skipped when already right, else moved. */
  method FixOne(fs: Disk.FileSystem, trs: seq<Path -> Path>, file: Path, tokens: Path -> seq<string>)
    returns (attempt: Option<(Path, Result<Path, Disk.FsError>)>)
    modifies fs
    ensures var g := FixStep(Fixing(old(fs.files), old(fs.dirs), []), file, Chain(trs), tokens);
      fs.files == g.files && fs.dirs == g.dirs && g.attempts == (if attempt.Some? then [attempt.value] else [])
    ensures attempt.None? <==> Chain(trs)(file) == file
    ensures attempt.Some? ==> attempt.value.0 == file && Landed(attempt.value, Chain(trs), tokens)
    ensures |fs.files| == |old(fs.files)|
  {
    var dst := ApplyAll(trs, file);
    if dst == file {
      return None;
    }
    var r := MoveOne(fs, file, dst, tokens(file));
    attempt := Some((file, r));
  }

  /** The chain of transforms as one function on paths. */
  function Chain(trs: seq<Path -> Path>): Path -> Path
  {
    p => Fold(trs, p)
  }

  /** A successful move ended at the fixed path or one of its alternatives. */
  predicate Landed(attempt: (Path, Result<Path, Disk.FsError>), fix: Path -> Path, tokens: Path -> seq<string>)
  {
    attempt.1.Ok? ==> attempt.1.value in Disk.Candidates(fix(attempt.0), tokens(attempt.0))
  }

  predicate AllLanded(attempts: seq<(Path, Result<Path, Disk.FsError>)>, fix: Path -> Path, tokens: Path -> seq<string>)
  {
    forall i :: 0 <= i < |attempts| ==> Landed(attempts[i], fix, tokens)
  }

  lemma AllLandedSnoc(attempts: seq<(Path, Result<Path, Disk.FsError>)>, x: (Path, Result<Path, Disk.FsError>),
                      fix: Path -> Path, tokens: Path -> seq<string>)
    requires AllLanded(attempts, fix, tokens) && Landed(x, fix, tokens)
    ensures AllLanded(attempts + [x], fix, tokens)
  {
    forall i | 0 <= i < |attempts| + 1
      ensures Landed((attempts + [x])[i], fix, tokens)
    {
      if i < |attempts| {
        assert (attempts + [x])[i] == attempts[i];
      }
    }
  }

  /**
   * One `safe_mv(file, dst, overwrite=False)`: the parent is created, and
   * on success the file is moved to a free candidate of `dst`; otherwise
   * no file changes.
   */
  method MoveOne(fs: Disk.FileSystem, file: Path, dst: Path, tokens: seq<string>)
    returns (r: Result<Path, Disk.FsError>)
    modifies fs
    ensures r == MoveResult(old(fs.files), old(fs.dirs), file, dst, tokens)
    ensures r.Ok? ==> file in old(fs.files) && r.value !in old(fs.files) && r.value in Disk.Candidates(dst, tokens)
                      && fs.files == Disk.Transfer(old(fs.files), file, r.value, Disk.Move)
    ensures r.Err? ==> fs.files == old(fs.files)
    ensures fs.dirs == old(fs.dirs) + {dst.parent}
    ensures |fs.files| == |old(fs.files)|
  {
    r := fs.SafeMove(file, dst, false, tokens);
    MoveResultFree(old(fs.files), old(fs.dirs), file, dst, tokens);
    if r.Ok? {
      MoveKeepsCount(old(fs.files), file, r.value);
    }
  }

  lemma {:induction false} SourcesAppend(a: seq<(Path, Result<Path, Disk.FsError>)>, b: seq<(Path, Result<Path, Disk.FsError>)>)
    ensures Sources(a + b) == Sources(a) + Sources(b)
  {
    if a == [] {
      assert a + b == b;
    } else {
      assert (a + b)[1..] == a[1..] + b;
      SourcesAppend(a[1..], b);
    }
  }
}
