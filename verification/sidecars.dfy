/**
 * Sidecar grouping: files that share a parent directory and a stem
 * ("IMG_0001.jpg", "IMG_0001.xmp", "IMG_0001.mp4") belong together.
 */
module Sidecars {
  import opened Common
  import opened Strings
  import opened Paths
  import opened Seqs
  import Disk

  /** `f"{file.parent}/{file.stem}"`; a bare name's parent renders as ".". */
  function GroupKey(p: Path): string
  {
    (if p.parent == [] then "." else p.parent) + "/" + Stem(p)
  }

  /** (group key, extension, file). */
  type Entry = (string, string, Path)

  /** (extension, file), an element of a sidecar group. */
  type Sidecar = (string, Path)

  /** (group key, its sidecars). */
  type SidecarGroup = (string, seq<Sidecar>)

  function EntryOf(p: Path): Entry
  {
    (GroupKey(p), Extension(p), p)
  }

  function EntriesOf(files: seq<Path>): (r: seq<Entry>)
    ensures |r| == |files| && forall i :: 0 <= i < |files| ==> r[i] == EntryOf(files[i])
  {
    if files == [] then [] else [EntryOf(files[0])] + EntriesOf(files[1..])
  }

  function CommonOf(e: Entry): string { e.0 }

  function ExtOf(s: Sidecar): string { s.0 }

  /** `[(key, file) for _, key, file in gr]`. */
  function Strip(run: seq<Entry>): (r: seq<Sidecar>)
    ensures |r| == |run| && forall i :: 0 <= i < |run| ==> r[i] == (run[i].1, run[i].2)
  {
    if run == [] then [] else [(run[0].1, run[0].2)] + Strip(run[1..])
  }

  /** One group per run: its key, and its entries sorted by extension. */
  function StackOf(runs: seq<seq<Entry>>): (r: seq<SidecarGroup>)
    requires forall i :: 0 <= i < |runs| ==> runs[i] != []
    ensures |r| == |runs|
    ensures forall i :: 0 <= i < |runs| ==> r[i].0 == runs[i][0].0
    ensures forall i :: 0 <= i < |runs| ==> r[i] == (runs[i][0].0, SortBy(Strip(runs[i]), ExtOf))
  {
    if runs == [] then [] else [(runs[0][0].0, SortBy(Strip(runs[0]), ExtOf))] + StackOf(runs[1..])
  }

  /** The stack before any extension filter. */
  function Unfiltered(files: seq<Path>): seq<SidecarGroup>
  {
    var entries := EntriesOf(files);
    StackOf(GroupRuns(SortBy(entries, CommonOf), CommonOf))
  }

  /** The sidecars whose lowercased extension is one of `extensions`. */
  function KeepExtensions(gr: seq<Sidecar>, extensions: seq<string>): (r: seq<Sidecar>)
    ensures forall s :: s in r <==> s in gr && Lower(s.0) in extensions
  {
    if gr == [] then []
    else (if Lower(gr[0].0) in extensions then [gr[0]] else []) + KeepExtensions(gr[1..], extensions)
  }

  /** The filter step: keep only the wanted extensions, then only the groups that have all of them. */
  function FilterStack(stack: seq<SidecarGroup>, extensions: seq<string>): seq<SidecarGroup>
  {
    if stack == [] then []
    else
      var kept := KeepExtensions(stack[0].1, extensions);
      var rest := FilterStack(stack[1..], extensions);
      if |kept| == |extensions| then [(stack[0].0, kept)] + rest else rest
  }

  /** A group survives iff it has every wanted extension; it then holds exactly those. */
  lemma {:induction false} FilterStackMembers(stack: seq<SidecarGroup>, extensions: seq<string>)
    ensures forall g :: g in FilterStack(stack, extensions) <==>
      exists g0 :: g0 in stack && g == (g0.0, KeepExtensions(g0.1, extensions)) && |g.1| == |extensions|
  {
    if stack != [] {
      FilterStackMembers(stack[1..], extensions);
      assert forall g0 :: g0 in stack <==> g0 == stack[0] || g0 in stack[1..];
    }
  }

  /** `_match`. */
  function Match(files: seq<Path>, extensions: seq<string>): seq<SidecarGroup>
  {
    if extensions == [] then Unfiltered(files) else FilterStack(Unfiltered(files), extensions)
  }

  /** Without a filter, groups come in strictly ascending key order. */
  lemma UnfilteredAscending(files: seq<Path>)
    ensures var r := Unfiltered(files);
      forall i, j :: 0 <= i < j < |r| ==> Less(r[i].0, r[j].0)
  {
    var entries := EntriesOf(files);
    var t := SortBy(entries, CommonOf);
    SortBySorted(entries, CommonOf);
    GroupRunsOfSorted(t, CommonOf);
  }

  /**
   * Without a filter, each group holds exactly the entries of its key,
   * sorted by extension and otherwise in input order.
   */
  lemma UnfilteredGroups(files: seq<Path>)
    ensures var r := Unfiltered(files);
      forall i :: 0 <= i < |r| ==>
        r[i].1 == SortBy(Strip(Select(EntriesOf(files), CommonOf, r[i].0)), ExtOf) && SortedBy(r[i].1, ExtOf)
  {
    var entries := EntriesOf(files);
    var t := SortBy(entries, CommonOf);
    SortBySorted(entries, CommonOf);
    GroupRunsOfSorted(t, CommonOf);
    var runs: seq<seq<Entry>> := GroupRuns(t, CommonOf);
    var r := Unfiltered(files);
    forall i | 0 <= i < |r|
      ensures r[i].1 == SortBy(Strip(Select(entries, CommonOf, r[i].0)), ExtOf) && SortedBy(r[i].1, ExtOf)
    {
      SelectSortBy(entries, CommonOf, runs[i][0].0);
      SortBySorted(Strip(runs[i]), ExtOf);
    }
  }

  lemma InStrip(run: seq<Entry>, s: Sidecar)
    ensures s in Strip(run) <==> exists x :: x in run && x.1 == s.0 && x.2 == s.1
  {
    var st := Strip(run);
    if s in st {
      var i :| 0 <= i < |st| && st[i] == s;
      assert run[i] in run;
    }
    if exists x :: x in run && x.1 == s.0 && x.2 == s.1 {
      var x :| x in run && x.1 == s.0 && x.2 == s.1;
      var i :| 0 <= i < |run| && run[i] == x;
      assert st[i] == s;
    }
  }

  lemma InEntriesOf(files: seq<Path>, x: Entry)
    ensures x in EntriesOf(files) <==> x.2 in files && x == EntryOf(x.2)
  {
    var entries := EntriesOf(files);
    if x in entries {
      var m :| 0 <= m < |entries| && entries[m] == x;
      assert files[m] == x.2;
    }
    if x.2 in files && x == EntryOf(x.2) {
      var m :| 0 <= m < |files| && files[m] == x.2;
      assert entries[m] == x;
    }
  }

  /** The sorted sidecars of one key hold a file iff it was given and has that key. */
  lemma InKeyGroup(files: seq<Path>, k: string, p: Path)
    ensures (Extension(p), p) in SortBy(Strip(Select(EntriesOf(files), CommonOf, k)), ExtOf)
        <==> p in files && GroupKey(p) == k
  {
    var entries := EntriesOf(files);
    var sel := Select(entries, CommonOf, k);
    var st := Strip(sel);
    var s := (Extension(p), p);
    assert s in SortBy(st, ExtOf) <==> s in st by {
      assert multiset(SortBy(st, ExtOf)) == multiset(st);
      assert s in SortBy(st, ExtOf) <==> s in multiset(SortBy(st, ExtOf));
    }
    InStrip(sel, s);
    if s in st {
      var x :| x in sel && x.1 == s.0 && x.2 == s.1;
      InSelect(entries, CommonOf, k, x);
      InEntriesOf(files, x);
    }
    if p in files && GroupKey(p) == k {
      InEntriesOf(files, EntryOf(p));
      InSelect(entries, CommonOf, k, EntryOf(p));
    }
  }

  /** Without a filter, a group holds a file iff the file was given and has the group's key. */
  lemma FileInGroup(files: seq<Path>, i: nat, p: Path)
    requires i < |Unfiltered(files)|
    ensures (Extension(p), p) in Unfiltered(files)[i].1 <==> p in files && GroupKey(p) == Unfiltered(files)[i].0
  {
    UnfilteredGroups(files);
    InKeyGroup(files, Unfiltered(files)[i].0, p);
  }

  /** Some run starts with the key of any element. */
  lemma {:induction false} RunOfEntry(t: seq<Entry>, x: Entry)
    requires x in t
    ensures exists i :: 0 <= i < |GroupRuns(t, CommonOf)| && GroupRuns(t, CommonOf)[i][0].0 == x.0
  {
    var runs: seq<seq<Entry>> := GroupRuns(t, CommonOf);
    var q :| 0 <= q < |t| && t[q] == x;
    InFlatten(runs, q);
    var i, j :| 0 <= i < |runs| && 0 <= j < |runs[i]| && runs[i][j] == Flatten(runs)[q];
    assert CommonOf(runs[i][j]) == CommonOf(runs[i][0]);
  }

  /** Without a filter, every given file has a group: the one of its key. */
  lemma EveryFileGrouped(files: seq<Path>, p: Path)
    requires p in files
    ensures exists i :: 0 <= i < |Unfiltered(files)| && Unfiltered(files)[i].0 == GroupKey(p)
  {
    var entries := EntriesOf(files);
    var t := SortBy(entries, CommonOf);
    InEntriesOf(files, EntryOf(p));
    assert EntryOf(p) in t by {
      assert multiset(t) == multiset(entries);
      assert EntryOf(p) in multiset(entries);
    }
    var k := EntryOf(p).0;
    RunOfEntry(t, EntryOf(p));
    var runs: seq<seq<Entry>> := GroupRuns(t, CommonOf);
    var i :| 0 <= i < |runs| && runs[i][0].0 == k;
    var r := StackOf(runs);
    assert r == Unfiltered(files);
    assert r[i].0 == k;
  }

  /** Without a filter, every given file is in some group. */
  lemma FileHasGroup(files: seq<Path>, p: Path)
    requires p in files
    ensures exists i :: 0 <= i < |Unfiltered(files)| && (Extension(p), p) in Unfiltered(files)[i].1
  {
    EveryFileGrouped(files, p);
    var r := Unfiltered(files);
    var i :| 0 <= i < |r| && r[i].0 == GroupKey(p);
    FileInGroup(files, i, p);
  }

  /** Without a filter, no file is in two groups. */
  lemma FileGroupUnique(files: seq<Path>, p: Path, i: nat, j: nat)
    requires i < |Unfiltered(files)| && j < |Unfiltered(files)|
    requires (Extension(p), p) in Unfiltered(files)[i].1 && (Extension(p), p) in Unfiltered(files)[j].1
    ensures i == j
  {
    UnfilteredKeysDistinct(files);
    FileInGroup(files, i, p);
    FileInGroup(files, j, p);
  }

  lemma UnfilteredKeysDistinct(files: seq<Path>)
    ensures var r := Unfiltered(files);
      forall i, j :: 0 <= i < |r| && 0 <= j < |r| && i != j ==> r[i].0 != r[j].0
  {
    var r := Unfiltered(files);
    UnfilteredAscending(files);
    forall i, j | 0 <= i < |r| && 0 <= j < |r| && i != j
      ensures r[i].0 != r[j].0
    {
      if i < j {
        LessIrreflexive(r[i].0, r[j].0);
      } else {
        LessIrreflexive(r[j].0, r[i].0);
      }
    }
  }

  lemma LessIrreflexive(a: string, b: string)
    requires Less(a, b)
    ensures a != b
  {
  }

  /** With a filter, every kept group has exactly as many sidecars as there are wanted extensions, all of them wanted. */
  lemma FilteredGroups(files: seq<Path>, extensions: seq<string>, g: SidecarGroup)
    requires extensions != [] && g in Match(files, extensions)
    ensures |g.1| == |extensions|
    ensures forall s :: s in g.1 ==> Lower(s.0) in extensions
    ensures exists g0 :: g0 in Unfiltered(files) && g0.0 == g.0 && g.1 == KeepExtensions(g0.1, extensions)
  {
    FilterStackMembers(Unfiltered(files), extensions);
  }

  /** `scan`: `_match` over the files of one target. */
  function Scan(dir: Path, kind: Path -> Disk.TargetKind, walk: Path -> seq<Path>, recursive: bool,
                extensions: seq<string>): seq<SidecarGroup>
  {
    Match(Disk.YieldedFiles(Disk.AllTargetEvents([dir], kind, walk, recursive)), extensions)
  }

  /** `scan_multiple`: the per-directory results, concatenated in directory order. */
  function ScanMultiple(dirs: seq<Path>, kind: Path -> Disk.TargetKind, walk: Path -> seq<Path>, recursive: bool,
                        extensions: seq<string>): seq<SidecarGroup>
  {
    ConcatMap(dirs, d => Scan(d, kind, walk, recursive, extensions))
  }

  lemma ScanMultipleAppend(a: seq<Path>, b: seq<Path>, kind: Path -> Disk.TargetKind,
                                             walk: Path -> seq<Path>, recursive: bool, extensions: seq<string>)
    ensures ScanMultiple(a + b, kind, walk, recursive, extensions)
         == ScanMultiple(a, kind, walk, recursive, extensions) + ScanMultiple(b, kind, walk, recursive, extensions)
  {
    ConcatMapAppend(a, b, d => Scan(d, kind, walk, recursive, extensions));
  }

  datatype ScanError = TooFewExtensions

  /** The printed (extension, file) lines of every group, in order. */
  function Lines(groups: seq<SidecarGroup>): seq<Sidecar>
  {
    if groups == [] then [] else groups[0].1 + Lines(groups[1..])
  }

  /** `scan_cmd`: a filter of a single extension is a TypeError; otherwise every group's lines. */
  function ScanCmd(dirs: seq<Path>, kind: Path -> Disk.TargetKind, walk: Path -> seq<Path>, recursive: bool,
                   extensions: seq<string>): (r: Result<seq<Sidecar>, ScanError>)
    ensures r.Err? <==> |extensions| == 1
  {
    if extensions != [] && |extensions| < 2 then Err(TooFewExtensions)
    else Ok(Lines(ScanMultiple(dirs, kind, walk, recursive, extensions)))
  }
}

/**
 * Sidecar videos: in one directory, the videos that share their name
 * (without extension) with exactly one image.
 */
module SidecarVideos {
  import opened Common
  import opened Strings
  import opened Paths
  import opened Seqs

  datatype MimeError = EmptyMimetype

  /**
   * `is_mimetype`: an empty mimetype raises ValueError; an unguessable
   * type matches nothing; a bare major type matches any type under it; a
   * full type must match exactly. `guess` stands for `mimetypes.guess_type`.
   */
  function IsMimetype(name: string, mimetype: string, guess: string -> Option<string>): (r: Result<bool, MimeError>)
    ensures r.Err? <==> mimetype == []
    ensures guess(name).None? && mimetype != [] ==> r == Ok(false)
    ensures r == Ok(true) ==> guess(name).Some? && StartsWith(guess(name).value, mimetype)
  {
    if mimetype == [] then Err(EmptyMimetype)
    else match guess(name)
      case None => Ok(false)
      case Some(t) =>
        if '/' !in mimetype then Ok(StartsWith(t, mimetype + "/"))
        else Ok(t == mimetype)
  }

  /** A match on a full type implies a match on its major type. */
  lemma FullTypeImpliesMajor(name: string, major: string, minor: string, guess: string -> Option<string>)
    requires major != [] && '/' !in major
    requires IsMimetype(name, major + "/" + minor, guess) == Ok(true)
    ensures IsMimetype(name, major, guess) == Ok(true)
  {
    var t := guess(name).value;
    assert (major + "/" + minor)[|major|] == '/';
    assert t[..|major| + 1] == (major + "/" + minor)[..|major| + 1] == major + "/";
  }

  predicate IsImage(name: string, guess: string -> Option<string>)
  {
    IsMimetype(name, "image", guess) == Ok(true)
  }

  predicate IsVideo(name: string, guess: string -> Option<string>)
  {
    IsMimetype(name, "video", guess) == Ok(true)
  }

  /** Nothing is both an image and a video. */
  lemma ImageIsNoVideo(name: string, guess: string -> Option<string>)
    requires IsImage(name, guess)
    ensures !IsVideo(name, guess)
  {
    var t := guess(name).value;
    assert t[0] == 'i';
  }

  /** `_get_name`: the name without extension, lowercased first under `ignore_case`. */
  function NameOf(fullname: string, ignoreCase: bool): string
  {
    SplitExt(if ignoreCase then Lower(fullname) else fullname).0
  }

  /** `str(Path)`: the text of the class object itself. */
  const PathClassText: string := "<class 'pathlib.Path'>"

  /** `is_sidecar_for` as written: both sides render the class, so the names are never compared. */
  predicate IsSidecarForAsWritten(image: string, candidate: string, ignoreCase: bool, guess: string -> Option<string>)
  {
    NameOf(PathClassText, ignoreCase) == NameOf(PathClassText, ignoreCase) && IsVideo(candidate, guess)
  }

  /** `is_sidecar_for` as evidently meant: same name and the candidate is a video. */
  predicate IsSidecarFor(image: string, candidate: string, ignoreCase: bool, guess: string -> Option<string>)
  {
    NameOf(image, ignoreCase) == NameOf(candidate, ignoreCase) && IsVideo(candidate, guess)
  }

  lemma AsWrittenIsJustVideo(image: string, candidate: string, ignoreCase: bool, guess: string -> Option<string>)
    ensures IsSidecarForAsWritten(image, candidate, ignoreCase, guess) <==> IsVideo(candidate, guess)
  {
  }

  function GuessMp4(name: string): Option<string>
  {
    if name == "b.mp4" then Some("video/mp4") else if name == "a.jpg" then Some("image/jpeg") else None
  }

  /** The video of another photo counts as a sidecar as written, and not once the names are compared. */
  lemma AsWrittenAcceptsOtherNames(image: string, candidate: string)
    requires image == "a.jpg" && candidate == "b.mp4"
    ensures IsSidecarForAsWritten(image, candidate, false, GuessMp4)
    ensures !IsSidecarFor(image, candidate, false, GuessMp4)
  {
    assert StartsWith("video/mp4", "video/");
    assert RFind(image, '.') == 1 by { RFindIs(image, '.', 1); }
    assert RFind(candidate, '.') == 1 by { RFindIs(candidate, '.', 1); }
    assert image[0] != '.' && candidate[0] != '.';
    assert NameOf(image, false) == "a";
    assert NameOf(candidate, false) == "b";
  }

  /** Inside a name group the two agree, so `find_sidecar_videos` is not affected. */
  lemma AsWrittenAgreesWithinGroup(image: string, candidate: string, ignoreCase: bool, guess: string -> Option<string>)
    requires NameOf(image, ignoreCase) == NameOf(candidate, ignoreCase)
    ensures IsSidecarForAsWritten(image, candidate, ignoreCase, guess) == IsSidecarFor(image, candidate, ignoreCase, guess)
  {
  }

  function Identity(s: string): string { s }

  /** The grouping key of `find_sidecar_videos`. */
  function NameKey(ignoreCase: bool): string -> string
  {
    s => NameOf(s, ignoreCase)
  }

  /** `[x for x in group if is_image(x)]`. */
  function ImagesIn(group: seq<string>, guess: string -> Option<string>): (r: seq<string>)
    ensures |r| <= |group|
  {
    if group == [] then []
    else (if IsImage(group[0], guess) then [group[0]] else []) + ImagesIn(group[1..], guess)
  }

  lemma {:induction false} InImagesIn(group: seq<string>, guess: string -> Option<string>, x: string)
    ensures x in ImagesIn(group, guess) <==> x in group && IsImage(x, guess)
  {
    if group != [] {
      InImagesIn(group[1..], guess, x);
      assert x in group <==> x == group[0] || x in group[1..];
    }
  }

  /** `[x for x in group if is_sidecar_for(image, x)]`. */
  function SidecarsIn(group: seq<string>, image: string, ignoreCase: bool, guess: string -> Option<string>): (r: seq<string>)
    ensures |r| <= |group|
  {
    if group == [] then []
    else (if IsSidecarForAsWritten(image, group[0], ignoreCase, guess) then [group[0]] else [])
         + SidecarsIn(group[1..], image, ignoreCase, guess)
  }

  /** The sidecars of a group are its videos (the name test being vacuous as written). */
  lemma {:induction false} InSidecarsIn(group: seq<string>, image: string, ignoreCase: bool,
                                        guess: string -> Option<string>, x: string)
    ensures x in SidecarsIn(group, image, ignoreCase, guess) <==> x in group && IsVideo(x, guess)
  {
    if group != [] {
      InSidecarsIn(group[1..], image, ignoreCase, guess, x);
      AsWrittenIsJustVideo(image, group[0], ignoreCase, guess);
      assert x in group <==> x == group[0] || x in group[1..];
    }
  }

  /** `by_name`: the keys in first-insertion order, each mapped to its last run. */
  datatype ByName = ByName(keys: seq<string>, groups: map<string, seq<string>>)
  {
    ghost predicate Valid()
    {
      (forall i, j :: 0 <= i < j < |keys| ==> keys[i] != keys[j])
      && (forall k :: k in groups <==> k in keys)
    }
  }

  /** `by_name[name] = list(group)`: a new name goes last, a known one keeps its place. */
  function Assign(b: ByName, run: seq<string>, key: string -> string): (r: ByName)
    requires b.Valid() && run != []
    ensures r.Valid()
    ensures r.groups == b.groups[key(run[0]) := run]
    ensures key(run[0]) in b.groups ==> r.keys == b.keys
    ensures key(run[0]) !in b.groups ==> r.keys == b.keys + [key(run[0])]
  {
    var name := key(run[0]);
    ByName(if name in b.groups then b.keys else b.keys + [name], b.groups[name := run])
  }

  /** Assigning every run to its key, in run order. */
  function ByNameOf(runs: seq<seq<string>>, key: string -> string): (b: ByName)
    requires forall i :: 0 <= i < |runs| ==> runs[i] != []
    ensures b.Valid()
    decreases |runs|
  {
    if runs == [] then ByName([], map[])
    else Assign(ByNameOf(runs[..|runs| - 1], key), runs[|runs| - 1], key)
  }

  lemma ByNameOfSnoc(runs: seq<seq<string>>, run: seq<string>, key: string -> string)
    requires forall i :: 0 <= i < |runs| ==> runs[i] != []
    requires run != []
    ensures ByNameOf(runs + [run], key) == Assign(ByNameOf(runs, key), run, key)
  {
    assert (runs + [run])[..|runs|] == runs;
  }

  /** The pair one name group contributes: none unless it holds exactly one image. */
  function SetOfGroup(root: string, group: seq<string>, ignoreCase: bool, guess: string -> Option<string>)
    : (r: seq<(Path, seq<Path>)>)
    ensures |r| <= 1
    ensures |r| == 1 <==> |ImagesIn(group, guess)| == 1
  {
    var images := ImagesIn(group, guess);
    if |images| != 1 then []
    else [(Path(root, images[0]), Under(root, SidecarsIn(group, images[0], ignoreCase, guess)))]
  }

  /** The (image, sidecars) pairs of the groups named in `names`, in that order. */
  function SetsOf(root: string, names: seq<string>, b: ByName, ignoreCase: bool, guess: string -> Option<string>)
    : (r: seq<(Path, seq<Path>)>)
    requires forall k :: k in names ==> k in b.groups
    ensures |r| <= |names|
  {
    if names == [] then []
    else SetOfGroup(root, b.groups[names[0]], ignoreCase, guess) + SetsOf(root, names[1..], b, ignoreCase, guess)
  }

  /** The runs of equal names over the sorted file names. */
  function NameRuns(files: seq<string>, ignoreCase: bool): seq<seq<string>>
  {
    GroupRuns(SortBy(files, Identity), NameKey(ignoreCase))
  }

  /** The `by_name` loop: each run stored under its name, a later run replacing an earlier one. */
  method BuildByName(runs: seq<seq<string>>, key: string -> string) returns (byName: ByName)
    requires forall i :: 0 <= i < |runs| ==> runs[i] != []
    ensures byName == ByNameOf(runs, key)
  {
    byName := ByName([], map[]);
    for i := 0 to |runs|
      invariant byName == ByNameOf(runs[..i], key)
    {
      assert runs[..i + 1][..i] == runs[..i];
      var name := key(runs[i][0]);
      if name in byName.groups {
        byName := byName.(groups := byName.groups[name := runs[i]]);
      } else {
        byName := ByName(byName.keys + [name], byName.groups[name := runs[i]]);
      }
    }
    assert runs[..|runs|] == runs;
  }

  /** The `sets` loop: skip the groups without exactly one image, keep the others' pairs in key order. */
  method CollectSets(root: string, byName: ByName, ignoreCase: bool, guess: string -> Option<string>)
    returns (sets: seq<(Path, seq<Path>)>)
    requires byName.Valid()
    ensures sets == SetsOf(root, byName.keys, byName, ignoreCase, guess)
  {
    sets := [];
    for i := 0 to |byName.keys|
      invariant sets + SetsOf(root, byName.keys[i..], byName, ignoreCase, guess)
             == SetsOf(root, byName.keys, byName, ignoreCase, guess)
    {
      var group := byName.groups[byName.keys[i]];
      SetsOfStep(sets, root, byName, ignoreCase, guess, i);
      var images := ImagesIn(group, guess);
      if |images| == 0 || |images| > 1 {
        assert SetOfGroup(root, group, ignoreCase, guess) == [];
        assert sets + [] == sets;
        continue;
      }
      var image := images[0];
      var sidecars := SidecarsIn(group, image, ignoreCase, guess);
      assert SetOfGroup(root, group, ignoreCase, guess) == [(Path(root, image), Under(root, sidecars))];
      sets := sets + [(Path(root, image), Under(root, sidecars))];
    }
    assert byName.keys[|byName.keys|..] == [];
  }

  /** Emitting the pair of group `i` after `done` leaves the later groups to do. */
  lemma SetsOfStep(done: seq<(Path, seq<Path>)>, root: string, byName: ByName, ignoreCase: bool,
                   guess: string -> Option<string>, i: nat)
    requires byName.Valid() && i < |byName.keys|
    ensures (done + SetOfGroup(root, byName.groups[byName.keys[i]], ignoreCase, guess))
            + SetsOf(root, byName.keys[i + 1..], byName, ignoreCase, guess)
         == done + SetsOf(root, byName.keys[i..], byName, ignoreCase, guess)
  {
    assert byName.keys[i..][1..] == byName.keys[i + 1..];
  }

  /**
   * `find_sidecar_videos`: only the first directory of the walk is
   * processed (`top`, or None when the walk yields nothing, in which case
   * the function falls off its loop and returns None).
   */
  method FindSidecarVideos(top: Option<(string, seq<string>)>, ignoreCase: bool, guess: string -> Option<string>)
    returns (r: Option<seq<(Path, seq<Path>)>>)
    ensures top.None? ==> r.None?
    ensures top.Some? ==>
      var b := ByNameOf(NameRuns(top.value.1, ignoreCase), NameKey(ignoreCase));
      r == Some(SetsOf(top.value.0, b.keys, b, ignoreCase, guess))
  {
    if top.None? {
      return None;
    }
    var runs := NameRuns(top.value.1, ignoreCase);
    var byName := BuildByName(runs, NameKey(ignoreCase));
    var sets := CollectSets(top.value.0, byName, ignoreCase, guess);
    r := Some(sets);
  }

  /**
   * Every reported pair comes from one name group with exactly one image:
   * the pair's path is that image under the root, and its list is the
   * group's videos under the root.
   */
  lemma {:induction false} SetsAreSingleImageGroups(root: string, names: seq<string>, b: ByName, ignoreCase: bool,
                                                  guess: string -> Option<string>, e: (Path, seq<Path>))
    requires forall k :: k in names ==> k in b.groups
    requires e in SetsOf(root, names, b, ignoreCase, guess)
    ensures exists k :: k in names && e in SetOfGroup(root, b.groups[k], ignoreCase, guess)
  {
    if e in SetOfGroup(root, b.groups[names[0]], ignoreCase, guess) {
      assert names[0] in names;
    } else {
      SetsAreSingleImageGroups(root, names[1..], b, ignoreCase, guess, e);
      var k :| k in names[1..] && e in SetOfGroup(root, b.groups[k], ignoreCase, guess);
      assert k in names;
    }
  }

  /**
   * A group's pair is its one image under the root, with the group's
   * videos (see InSidecarsIn) under the root.
   */
  lemma PairOfGroup(root: string, group: seq<string>, ignoreCase: bool, guess: string -> Option<string>,
                    e: (Path, seq<Path>))
    requires e in SetOfGroup(root, group, ignoreCase, guess)
    ensures exists image :: (image in group && IsImage(image, guess)
      && (forall y :: y in group && IsImage(y, guess) ==> y == image)
      && e.0 == Path(root, image)
      && e.1 == Under(root, SidecarsIn(group, image, ignoreCase, guess)))
  {
    var images := ImagesIn(group, guess);
    assert |images| == 1;
    var image := images[0];
    assert images == [image];
    assert e == (Path(root, image), Under(root, SidecarsIn(group, image, ignoreCase, guess)));
    OnlyImage(group, guess, image);
  }

  /** A group whose images are just `image`: `image` is in it, and every image in it is `image`. */
  lemma OnlyImage(group: seq<string>, guess: string -> Option<string>, image: string)
    requires ImagesIn(group, guess) == [image]
    ensures image in group && IsImage(image, guess)
    ensures forall y :: y in group && IsImage(y, guess) ==> y == image
  {
    InImagesIn(group, guess, image);
    forall y | y in group && IsImage(y, guess) ensures y == image {
      InImagesIn(group, guess, y);
    }
  }

  /**
   * A name that comes back after another run replaces its first group
   * and keeps its first place.
   */
  lemma ReturningName(x: string, y: string, z: string, key: string -> string)
    requires key(x) == key(z) && key(x) != key(y)
    ensures var b := ByNameOf([[x], [y], [z]], key);
      b.keys == [key(x), key(y)] && key(x) in b.groups && b.groups[key(x)] == [z]
  {
    TwoNames(x, y, key);
    var b2 := ByNameOf([[x], [y]], key);
    ByNameOfSnoc([[x], [y]], [z], key);
    assert [[x], [y]] + [[z]] == [[x], [y], [z]];
    assert ByNameOf([[x], [y], [z]], key) == Assign(b2, [z], key);
  }

  /** Two runs of different names: both keys, in order. */
  lemma TwoNames(x: string, y: string, key: string -> string)
    requires key(x) != key(y)
    ensures var b := ByNameOf([[x], [y]], key); b.keys == [key(x), key(y)] && key(x) in b.groups
  {
    ByNameOfSnoc([], [x], key);
    assert [] + [[x]] == [[x]];
    var b1 := ByNameOf([[x]], key);
    assert b1.keys == [key(x)] && key(x) in b1.groups;
    ByNameOfSnoc([[x]], [y], key);
    assert [[x]] + [[y]] == [[x], [y]];
  }

  /**
   * Under `ignore_case` the sort is case-sensitive but the key is not:
   * "A.jpg", "B.jpg", "a.mp4" give the runs "a", "b", "a", and the last
   * run replaces the first in `by_name`, whose key keeps its first place.
   */
  lemma IgnoreCaseOverwrite(runs: seq<seq<string>>)
    requires runs == [["A.jpg"], ["B.jpg"], ["a.mp4"]]
    ensures var b := ByNameOf(runs, NameKey(true));
      b.keys == ["a", "b"] && "a" in b.groups && b.groups["a"] == ["a.mp4"]
  {
    IgnoreCaseKeys(runs[0][0], runs[1][0], runs[2][0]);
    ReturningName(runs[0][0], runs[1][0], runs[2][0], NameKey(true));
  }

  /** The case-insensitive name keys of the three files. */
  lemma IgnoreCaseKeys(x: string, y: string, z: string)
    requires x == "A.jpg" && y == "B.jpg" && z == "a.mp4"
    ensures NameKey(true)(x) == "a" && NameKey(true)(y) == "b" && NameKey(true)(z) == "a"
  {
    KeyOfOneDot(x, 'a', x[2..]);
    KeyOfOneDot(y, 'b', y[2..]);
    KeyOfOneDot(z, 'a', z[2..]);
  }

  /** A one-letter stem, a dot, and a lower-case three-letter extension. */
  lemma KeyOfOneDot(name: string, stem: char, ext: string)
    requires |name| == 5 && name[1] == '.' && LowerChar(name[0]) == stem && stem != '.'
    requires ext == name[2..] && '.' !in ext && forall i :: 0 <= i < 3 ==> LowerChar(ext[i]) == ext[i]
    ensures NameKey(true)(name) == [stem]
  {
    var l := Lower(name);
    assert l == [stem] + "." + ext;
    LowerName(name, [stem], ext);
  }

  /** A one-dot name lowercases to `stem` "." `ext`, whose name part is `stem`. */
  lemma LowerName(name: string, stem: string, ext: string)
    requires Lower(name) == stem + "." + ext
    requires stem != [] && stem[0] != '.' && '.' !in ext
    ensures NameKey(true)(name) == stem
  {
    NameOfStem(stem, ext);
  }

  /** `stem` "." `ext`, with a dot-free extension, has `stem` as its name part. */
  lemma NameOfStem(stem: string, ext: string)
    requires stem != [] && stem[0] != '.' && '.' !in ext
    ensures NameOf(stem + "." + ext, false) == stem
  {
    var l := stem + "." + ext;
    assert l[|stem|] == '.';
    forall j | |stem| < j < |l| ensures l[j] != '.' {
      assert l[j] == ext[j - |stem| - 1];
    }
    RFindIs(l, '.', |stem|);
    assert l[0] != '.';
    assert l[..|stem|] == stem;
  }

  /**
   * As meant, a candidate is the sidecar of an image exactly when it is a
   * video with the image's name, and every such pair also passes the test
   * as written.
   */
  lemma IntendedPairsSameName(stem1: string, ext1: string, stem2: string, ext2: string, guess: string -> Option<string>)
    requires stem1 != [] && stem1[0] != '.' && '.' !in ext1
    requires stem2 != [] && stem2[0] != '.' && '.' !in ext2
    ensures IsSidecarFor(stem1 + "." + ext1, stem2 + "." + ext2, false, guess)
        <==> stem1 == stem2 && IsVideo(stem2 + "." + ext2, guess)
    ensures IsSidecarFor(stem1 + "." + ext1, stem2 + "." + ext2, false, guess)
        ==> IsSidecarForAsWritten(stem1 + "." + ext1, stem2 + "." + ext2, false, guess)
  {
    NameOfStem(stem1, ext1);
    NameOfStem(stem2, ext2);
  }
}
