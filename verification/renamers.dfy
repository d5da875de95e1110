/**
 * Renaming files after their CRC-32: the checksum read in 4096-byte
 * chunks, the eight-digit name it gives, and the command that moves every
 * target file to that name.
 */
module Renamers {
  import opened Common
  import opened Strings
  import opened Paths
  import opened Crc32
  import opened Disk

  const ChunkSize: nat := 4096

  /**
   * `get_crc32`: fold `zlib.crc32` over the file in 4096-byte reads,
   * starting from 0, until a read comes back empty.
   */
  method GetCrc32(contents: seq<byte>) returns (ret: bv32)
    ensures ret == Checksum(contents)
  {
    ret := 0;
    var pos := 0;
    while pos < |contents|
      invariant 0 <= pos <= |contents|
      invariant ret == Checksum(contents[..pos])
      decreases |contents| - pos
    {
      var end := if pos + ChunkSize <= |contents| then pos + ChunkSize else |contents|;
      var chunk := contents[pos..end];
      UpdateAppend(0, contents[..pos], chunk);
      assert contents[..pos] + chunk == contents[..end];
      ret := Update(ret, chunk);
      pos := end;
    }
    assert contents[..pos] == contents;
  }

  /** `crc32_hash_frompath`: the unpadded hex checksum of the whole file. */
  function HashFromPath(contents: seq<byte>): (s: string)
    ensures 1 <= |s| <= 8 && IsHex(s)
    ensures HexValue(s) == Checksum(contents) as nat
  {
    HashFromBytes(contents)
  }

  /** `get_crc32_filepath`: same parent, eight hex digits, the old suffix. */
  function Crc32FilePath(p: Path, contents: seq<byte>): (r: Path)
    ensures r.parent == p.parent
    ensures r.name == Hex8(Checksum(contents) as nat) + Suffix(p)
  {
    Path(p.parent, Hex8(Checksum(contents) as nat) + Suffix(p))
  }

  /** The new name's stem is the zero-padded checksum and its suffix the old one. */
  lemma Crc32FilePathShape(p: Path, contents: seq<byte>)
    ensures |Stem(Crc32FilePath(p, contents))| == 8
    ensures HexValue(Stem(Crc32FilePath(p, contents))) == Checksum(contents) as nat
    ensures Suffix(Crc32FilePath(p, contents)) == Suffix(p)
  {
    var h := Hex8(Checksum(contents) as nat);
    Hex8Width(Checksum(contents) as nat);
    var r := Crc32FilePath(p, contents);
    assert r == Path(p.parent, h + Suffix(p));
    HexName(p.parent, h, Suffix(p));
  }

  /** Eight hex digits and a suffix (or none) split back into the digits and the suffix. */
  lemma HexName(parent: string, h: string, s: string)
    requires |h| == 8 && IsHex(h) && (s == [] || SuffixShape(s))
    ensures Stem(Path(parent, h + s)) == h && Suffix(Path(parent, h + s)) == s
  {
    HexHasNoDot(h);
    if s == [] {
      assert h + s == h;
      DotFreeName(parent, h);
    } else {
      HexThenSuffix(parent, h, s);
    }
  }

  lemma HexHasNoDot(h: string)
    requires IsHex(h)
    ensures '.' !in h
  {
    forall i | 0 <= i < |h| ensures h[i] != '.' {
      assert IsHex(h);
    }
  }

  /** A name without a dot is all stem. */
  lemma DotFreeName(parent: string, h: string)
    requires '.' !in h
    ensures Stem(Path(parent, h)) == h && Suffix(Path(parent, h)) == []
  {
    RFindAbsent(h, '.');
  }

  /** Eight dot-free characters then a suffix: the eight are the stem. */
  lemma HexThenSuffix(parent: string, h: string, s: string)
    requires |h| == 8 && '.' !in h && SuffixShape(s)
    ensures Stem(Path(parent, h + s)) == h && Suffix(Path(parent, h + s)) == s
  {
    var n := h + s;
    assert n[8] == '.';
    forall j | 8 < j < |n| ensures n[j] != '.' {
      assert n[j] == s[1..][j - 9];
    }
    RFindIs(n, '.', 8);
    assert n[..8] == h;
    assert n[8..] == s;
  }

  /** A file whose name begins with the eight-digit checksum of its contents. */
  predicate NamedByChecksum(p: Path, contents: seq<byte>)
  {
    StartsWith(p.name, Hex8(Checksum(contents) as nat))
  }

  /**
   * Every file now present is either untouched or stored under the name its
   * checksum gives it.
   */
  predicate KeptOrRenamed(before: map<Path, seq<byte>>, after: map<Path, seq<byte>>)
  {
    forall p :: p in after ==> (p in before && after[p] == before[p]) || NamedByChecksum(p, after[p])
  }

  lemma KeptOrRenamedTransitive(a: map<Path, seq<byte>>, b: map<Path, seq<byte>>, c: map<Path, seq<byte>>)
    requires KeptOrRenamed(a, b) && KeptOrRenamed(b, c)
    ensures KeptOrRenamed(a, c)
  {
  }

  /** A line `click.echo` prints: on standard output or, with `err=True`, on standard error. */
  datatype Line = Stdout(text: string) | Stderr(text: string)

  /** The move reported on a dry run or with `--verbose`. */
  function MvLine(src: Path, dst: Path): string
  {
    "mv '" + ToString(src) + "' '" + ToString(dst) + "'"
  }

  /** The complaint about a destination that already exists. */
  function ExistsLine(src: Path, dst: Path): string
  {
    ToString(src) + ": Destination " + ToString(dst) + " exists"
  }

  /**
   * The disk and the lines echoed after some iterations of the command;
   * `stop` when the command has returned (a dry run, or a failed read).
   */
  datatype Run = Run(files: map<Path, seq<byte>>, dirs: set<string>, echoed: seq<Line>, stop: bool, r: Result<(), FsError>)

  /** The checksum name of `src` exists and `--force` is not given: the file is skipped. */
  predicate Blocked(files: map<Path, seq<byte>>, dirs: set<string>, src: Path, force: bool)
    requires src in files
  {
    var dst := Crc32FilePath(src, files[src]);
    (dst in files || ToString(dst) in dirs) && !force
  }

  /**
   * One iteration of `crc32_rename_cmd` for the source `src`: a source
   * that has vanished makes the checksum read fail and ends the command;
   * a blocked destination is reported on standard error and skipped; a
   * dry run or `--verbose` prints the move, and a dry run then returns;
   * otherwise `safe_mv(src, dst, overwrite=force)` moves the file.
   */
  function RenameStep(files: map<Path, seq<byte>>, dirs: set<string>, src: Path, force: bool, dryRun: bool, verbose: bool): (o: Run)
    ensures src !in files ==> o == Run(files, dirs, [], true, Err(NoSuchFile(src)))
    ensures src in files && Blocked(files, dirs, src, force)
            ==> o == Run(files, dirs, [Stderr(ExistsLine(src, Crc32FilePath(src, files[src])))], false, Ok(()))
    ensures src in files && !Blocked(files, dirs, src, force)
            ==> (o.stop <==> dryRun) && o.r == Ok(())
                && o.echoed == (if dryRun || verbose then [Stdout(MvLine(src, Crc32FilePath(src, files[src])))] else [])
    ensures src in files && !Blocked(files, dirs, src, force) && !dryRun
            ==> o.files == Transfer(files, src, Crc32FilePath(src, files[src]), Move)
    ensures dryRun ==> o.files == files && o.dirs == dirs
  {
    if src !in files then Run(files, dirs, [], true, Err(NoSuchFile(src)))
    else
      var dst := Crc32FilePath(src, files[src]);
      if Blocked(files, dirs, src, force) then Run(files, dirs, [Stderr(ExistsLine(src, dst))], false, Ok(()))
      else
        var lines := if dryRun || verbose then [Stdout(MvLine(src, dst))] else [];
        if dryRun then Run(files, dirs, lines, true, Ok(()))
        else Run(Transfer(files, src, dst, Move), dirs + {dst.parent}, lines, false, Ok(()))
  }

  /**
   * `crc32_rename_cmd` over the sources in order: each iteration's lines
   * follow the previous ones, and the first iteration that returns ends
   * the command with its result.
   */
  function RenameAll(files: map<Path, seq<byte>>, dirs: set<string>, sources: seq<Path>, force: bool, dryRun: bool, verbose: bool): Run
    decreases |sources|
  {
    if sources == [] then Run(files, dirs, [], false, Ok(()))
    else
      var s := RenameStep(files, dirs, sources[0], force, dryRun, verbose);
      if s.stop then s
      else
        Then(s.echoed, RenameAll(s.files, s.dirs, sources[1..], force, dryRun, verbose))
  }

  /** A run whose lines are preceded by `lines`. */
  function Then(lines: seq<Line>, rest: Run): (o: Run)
    ensures o.files == rest.files && o.dirs == rest.dirs && o.stop == rest.stop && o.r == rest.r
    ensures o.echoed == lines + rest.echoed
  {
    rest.(echoed := lines + rest.echoed)
  }

  lemma ThenThen(a: seq<Line>, b: seq<Line>, rest: Run)
    ensures Then(a, Then(b, rest)) == Then(a + b, rest)
  {
    assert a + (b + rest.echoed) == (a + b) + rest.echoed;
  }

  /** `RenameAll` from the `i`-th source on: one step, then the rest unless it returned. */
  lemma RenameAllFrom(files: map<Path, seq<byte>>, dirs: set<string>, sources: seq<Path>, i: nat, force: bool, dryRun: bool, verbose: bool)
    requires i < |sources|
    ensures var s := RenameStep(files, dirs, sources[i], force, dryRun, verbose);
      RenameAll(files, dirs, sources[i..], force, dryRun, verbose)
      == if s.stop then s else Then(s.echoed, RenameAll(s.files, s.dirs, sources[i + 1..], force, dryRun, verbose))
  {
    assert sources[i..][0] == sources[i] && sources[i..][1..] == sources[i + 1..];
  }

  /** A dry-run iteration moves nothing and prints on standard output only when it returns. */
  lemma DryStep(files: map<Path, seq<byte>>, dirs: set<string>, src: Path, force: bool, verbose: bool)
    ensures var s := RenameStep(files, dirs, src, force, true, verbose);
      s.files == files && s.dirs == dirs && (s.stop || (|s.echoed| == 1 && s.echoed[0].Stderr?))
      && forall k :: 0 <= k < |s.echoed| && s.echoed[k].Stdout? ==> k == |s.echoed| - 1 && s.stop
  {
  }

  /**
   * With `--dry-run` no file moves, and at most one line reaches standard
   * output: the move of the first source that is not skipped, printed
   * last, after which the command has returned.
   */
  lemma {:induction false} RenameAllDryRun(files: map<Path, seq<byte>>, dirs: set<string>, sources: seq<Path>, force: bool, verbose: bool)
    ensures var o := RenameAll(files, dirs, sources, force, true, verbose);
      o.files == files && o.dirs == dirs
      && forall k :: 0 <= k < |o.echoed| && o.echoed[k].Stdout? ==> k == |o.echoed| - 1 && o.stop
    decreases |sources|
  {
    if sources != [] {
      var s := RenameStep(files, dirs, sources[0], force, true, verbose);
      DryStep(files, dirs, sources[0], force, verbose);
      if !s.stop {
        RenameAllDryRun(s.files, s.dirs, sources[1..], force, verbose);
        var rest := RenameAll(s.files, s.dirs, sources[1..], force, true, verbose);
        var o := Then(s.echoed, rest);
        forall k | 0 <= k < |o.echoed| && o.echoed[k].Stdout?
          ensures k == |o.echoed| - 1 && o.stop
        {
          assert k > 0 && o.echoed[k] == rest.echoed[k - 1];
        }
      }
    }
  }

  /** One iteration leaves every file untouched or stored under its checksum name. */
  lemma RenameStepKept(files: map<Path, seq<byte>>, dirs: set<string>, src: Path, force: bool, dryRun: bool, verbose: bool)
    ensures KeptOrRenamed(files, RenameStep(files, dirs, src, force, dryRun, verbose).files)
  {
    if src in files && !Blocked(files, dirs, src, force) && !dryRun {
      var dst := Crc32FilePath(src, files[src]);
      assert StartsWith(dst.name, Hex8(Checksum(files[src]) as nat));
      MoveToChecksumName(files, src, dst);
    }
  }

  /** After the command every file is either untouched or named by its own checksum. */
  lemma {:induction false} RenameAllKept(files: map<Path, seq<byte>>, dirs: set<string>, sources: seq<Path>, force: bool, dryRun: bool, verbose: bool)
    ensures KeptOrRenamed(files, RenameAll(files, dirs, sources, force, dryRun, verbose).files)
    decreases |sources|
  {
    if sources != [] {
      var s := RenameStep(files, dirs, sources[0], force, dryRun, verbose);
      RenameStepKept(files, dirs, sources[0], force, dryRun, verbose);
      if !s.stop {
        RenameAllKept(s.files, s.dirs, sources[1..], force, dryRun, verbose);
        KeptOrRenamedTransitive(files, s.files, RenameAll(s.files, s.dirs, sources[1..], force, dryRun, verbose).files);
      }
    }
  }

  /** Without `--force` a move never lands on an existing file, so no file is lost. */
  lemma {:induction false} RenameAllCount(files: map<Path, seq<byte>>, dirs: set<string>, sources: seq<Path>, dryRun: bool, verbose: bool)
    ensures |RenameAll(files, dirs, sources, false, dryRun, verbose).files| == |files|
    decreases |sources|
  {
    if sources != [] {
      var src := sources[0];
      var s := RenameStep(files, dirs, src, false, dryRun, verbose);
      if src in files && !Blocked(files, dirs, src, false) && !dryRun {
        MoveKeepsCount(files, src, Crc32FilePath(src, files[src]));
      }
      if !s.stop {
        RenameAllCount(s.files, s.dirs, sources[1..], dryRun, verbose);
      }
    }
  }

  /**
   * `crc32_rename_cmd` over the files the targets yield. The disk, the
   * lines echoed and the result are those of `RenameAll`.
   */
  method Crc32RenameCmd(fs: FileSystem, sources: seq<Path>, force: bool, dryRun: bool, verbose: bool)
    returns (echoed: seq<Line>, r: Result<(), FsError>)
    modifies fs
    ensures var o := RenameAll(old(fs.files), old(fs.dirs), sources, force, dryRun, verbose);
      fs.files == o.files && fs.dirs == o.dirs && echoed == o.echoed && r == o.r
  {
    ghost var total := RenameAll(fs.files, fs.dirs, sources, force, dryRun, verbose);
    echoed := [];
    r := Ok(());
    for i := 0 to |sources|
      invariant total == Then(echoed, RenameAll(fs.files, fs.dirs, sources[i..], force, dryRun, verbose))
    {
      ghost var f0, d0 := fs.files, fs.dirs;
      RenameAllFrom(f0, d0, sources, i, force, dryRun, verbose);
      var lines, stop, res := RenameOne(fs, sources[i], force, dryRun, verbose);
      ghost var s := Run(fs.files, fs.dirs, lines, stop, res);
      assert s == RenameStep(f0, d0, sources[i], force, dryRun, verbose);
      if stop {
        assert total == Then(echoed, s);
        echoed := echoed + lines;
        r := res;
        return;
      }
      ghost var rest := RenameAll(fs.files, fs.dirs, sources[i + 1..], force, dryRun, verbose);
      assert total == Then(echoed, Then(lines, rest));
      ThenThen(echoed, lines, rest);
      echoed := echoed + lines;
    }
    assert sources[|sources|..] == [];
  }

  /** One iteration of `crc32_rename_cmd`; `stop` when the command returns here. */
  method RenameOne(fs: FileSystem, src: Path, force: bool, dryRun: bool, verbose: bool)
    returns (echoed: seq<Line>, stop: bool, r: Result<(), FsError>)
    modifies fs
    ensures Run(fs.files, fs.dirs, echoed, stop, r) == RenameStep(old(fs.files), old(fs.dirs), src, force, dryRun, verbose)
    ensures src in old(fs.files) && !Blocked(old(fs.files), old(fs.dirs), src, force)
            ==> (stop <==> dryRun)
                && echoed == (if dryRun || verbose then [Stdout(MvLine(src, Crc32FilePath(src, old(fs.files)[src])))] else [])
  {
    echoed := [];
    stop := false;
    r := Ok(());
    if src !in fs.files {
      stop := true;
      r := Err(NoSuchFile(src));
      return;
    }
    var dst := Crc32FilePath(src, fs.files[src]);
    if fs.Exists(dst) && !force {
      echoed := [Stderr(ExistsLine(src, dst))];
      return;
    }
    if dryRun || verbose {
      echoed := [Stdout(MvLine(src, dst))];
    }
    if dryRun {
      stop := true;
      return;
    }
    ghost var before := fs.files;
    DestinationUsable(before, fs.dirs, src, force);
    var moved := fs.SafeMove(src, dst, force, []);
  }

  /** `safe_mv` with no alternatives picks the checksum name when it is free or `force` is set. */
  lemma DestinationUsable(files: map<Path, seq<byte>>, dirs: set<string>, src: Path, force: bool)
    requires src in files
    requires var dst := Crc32FilePath(src, files[src]); force || !(dst in files || ToString(dst) in dirs)
    ensures var dst := Crc32FilePath(src, files[src]);
      FirstUsable(Candidates(dst, []), force, files.Keys, dirs + {dst.parent}).MapToResult(src, files) == Ok(dst)
  {
    var dst := Crc32FilePath(src, files[src]);
    assert Candidates(dst, []) == [dst];
    assert dst.name != [];
    assert ToString(dst) != dst.parent by {
      if dst.parent != [] {
        assert |ToString(dst)| > |dst.parent|;
      }
    }
  }

  lemma MoveToChecksumName(files: map<Path, seq<byte>>, src: Path, dst: Path)
    requires src in files && NamedByChecksum(dst, files[src])
    ensures KeptOrRenamed(files, Transfer(files, src, dst, Move))
  {
  }

  /** Moving onto a free name keeps the number of files. */
  lemma MoveKeepsCount(files: map<Path, seq<byte>>, src: Path, dst: Path)
    requires src in files && dst !in files
    ensures |Transfer(files, src, dst, Move)| == |files|
  {
    var t := Transfer(files, src, dst, Move);
    assert t.Keys == files.Keys - {src} + {dst};
    assert |files.Keys - {src}| == |files.Keys| - 1;
  }
}
