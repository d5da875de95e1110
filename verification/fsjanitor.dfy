/**
 * `fsjanitor`: a list of extensions, each deciding on one walked entry at
 * a time whether an operation is due; the app runs every extension over
 * every path and hands the operations to the executor.
 */
module FsJanitor {
  import opened Common
  import opened Strings
  import opened Paths
  import FsOps

  // ---------------------------------------------------------------------
  // What the extensions see of an entry
  // ---------------------------------------------------------------------

  datatype Kind = File | Dir | Special

  /** What `stat` returns: the kind and the `st_mode` bits. */
  datatype Stat = Stat(kind: Kind, stMode: nat)

  /**
   * The file system as the extensions query it: the entries `stat` can
   * reach (through symbolic links) and the paths that are symbolic links.
   */
  datatype View = View(stats: map<Path, Stat>, symlinks: set<Path>)
  {
    predicate Exists(p: Path) { p in stats }
    predicate IsFile(p: Path) { p in stats && stats[p].kind == File }
    predicate IsDir(p: Path) { p in stats && stats[p].kind == Dir }
  }

  /** The result of `process`: no operation, an operation, `InvalidFileTypeError`, or a re-raised error. */
  datatype Decision = Skip | Emit(op: FsOps.Operation) | InvalidType | Reraise

  datatype Extension = DeOSXfy | FixExtension | ImageReduce | FixPermissions | Subtitles

  // ---------------------------------------------------------------------
  // DeOSXfy
  // ---------------------------------------------------------------------

  /** The file an AppleDouble `._name` file belongs to. */
  function RealEntry(p: Path): Path
    requires StartsWith(p.name, "._")
  {
    Path(p.parent, p.name[2..])
  }

  function DeOSXfyDecision(p: Path, view: View): (d: Decision)
    ensures d == Skip || d == Emit(FsOps.Delete(p))
    ensures d.Emit? <==>
      (view.IsDir(p) && p.name == ".DS_Store")
      || (view.IsFile(p) && StartsWith(p.name, "._") && view.Exists(RealEntry(p)))
      || (view.IsFile(p) && p.name == "Icon\r")
  {
    if view.IsDir(p) && p.name == ".DS_Store" then Emit(FsOps.Delete(p))
    else if view.IsFile(p) && StartsWith(p.name, "._") && view.Exists(RealEntry(p)) then Emit(FsOps.Delete(p))
    else if view.IsFile(p) && p.name == "Icon\r" then Emit(FsOps.Delete(p))
    else Skip
  }

  /** An orphan AppleDouble file, whose companion is gone, is kept. */
  lemma OrphanAppleDoubleKept(p: Path, view: View)
    requires view.IsFile(p) && StartsWith(p.name, "._") && !view.Exists(RealEntry(p)) && p.name != "Icon\r"
    ensures DeOSXfyDecision(p, view) == Skip
  {
  }

  // ---------------------------------------------------------------------
  // FixExtension
  // ---------------------------------------------------------------------

  /** This extension's `SUFFIX_MAP`. */
  const SuffixMap: map<string, string> := map[".jpeg" := ".jpg", ".mpeg" := ".mpg", ".tif" := ".tiff"]

  function FixExtensionDecision(p: Path, view: View): (d: Decision)
    ensures d.Emit? <==> view.IsFile(p) && Lower(Suffix(p)) in SuffixMap
    ensures d.Emit? ==> d.op == FsOps.Rename(p, Path(p.parent, Stem(p) + SuffixMap[Lower(Suffix(p))]))
    ensures !d.Emit? ==> d == Skip
  {
    if !view.IsFile(p) then Skip
    else
      var suffix := Lower(Suffix(p));
      if suffix !in SuffixMap then Skip
      else
        var dest := Path(p.parent, Stem(p) + SuffixMap[suffix]);
        RenameMoves(p, suffix);
        if p != dest then Emit(FsOps.Rename(p, dest)) else Skip
  }

  /** A mapped suffix always differs from the original one, so the destination is a new path. */
  lemma RenameMoves(p: Path, suffix: string)
    requires suffix == Lower(Suffix(p)) && suffix in SuffixMap
    ensures p != Path(p.parent, Stem(p) + SuffixMap[suffix])
  {
    StemSuffix(p);
    var m := SuffixMap[suffix];
    assert |Suffix(p)| == |suffix|;
    assert |m| != |suffix|;
  }

  /** Suffixes already in short form, whatever their case, are left alone. */
  lemma ShortFormsSkipped(p: Path, view: View)
    requires Lower(Suffix(p)) == ".jpg" || Lower(Suffix(p)) == ".mpg" || Lower(Suffix(p)) == ".tiff"
    ensures FixExtensionDecision(p, view) == Skip
  {
    ShortFormsUnmapped(Lower(Suffix(p)));
  }

  lemma ShortFormsUnmapped(suffix: string)
    requires suffix == ".jpg" || suffix == ".mpg" || suffix == ".tiff"
    ensures suffix !in SuffixMap
  {
    assert SuffixMap.Keys == {".jpeg", ".mpeg", ".tif"};
  }

  // ---------------------------------------------------------------------
  // FixPermissions
  // ---------------------------------------------------------------------

  /** `oct(st_mode)[-3:]`. */
  function ModeText(stMode: nat): (r: string)
    ensures |r| == 3
  {
    var o := "0o" + FsOps.Octal(stMode);
    o[|o| - 3..]
  }

  function Digit(d: nat): char
    requires d < 8
  {
    ('0' as int + d) as char
  }

  /** The last octal digit of `n`, and the rest. */
  lemma OctalLast(n: nat)
    ensures FsOps.Octal(n)[|FsOps.Octal(n)| - 1] == Digit(n % 8)
    ensures n >= 8 ==> FsOps.Octal(n) == FsOps.Octal(n / 8) + [Digit(n % 8)]
  {
  }

  /** The last three characters of a text ending in two known characters. */
  lemma LastThree(prefix: string, s: string, x: char, y: char)
    requires s != []
    ensures var t := prefix + ((s + [x]) + [y]); t[|t| - 3..] == [s[|s| - 1], x, y]
  {
    var t := prefix + ((s + [x]) + [y]);
    assert t[|t| - 3] == s[|s| - 1];
  }

  /** With three octal digits or more, the text is the permission bits. */
  lemma ModeTextDigits(n: nat)
    requires n >= 64
    ensures ModeText(n) == [Digit(n / 64 % 8), Digit(n / 8 % 8), Digit(n % 8)]
  {
    var a := n / 8;
    var b := a / 8;
    assert b == n / 64;
    OctalLast(n);
    OctalLast(a);
    OctalLast(b);
    var ob := FsOps.Octal(b);
    assert FsOps.Octal(n) == (ob + [Digit(a % 8)]) + [Digit(n % 8)];
    LastThree("0o", ob, Digit(a % 8), Digit(n % 8));
  }

  /** The permission bits as the three digits. */
  lemma PermissionBits(n: nat)
    ensures n % 512 == 64 * (n / 64 % 8) + 8 * (n / 8 % 8) + n % 8
  {
    var a := n / 8;
    var b := a / 8;
    var c := b / 8;
    assert n == 8 * a + n % 8;
    assert a == 8 * b + a % 8;
    assert b == 8 * c + b % 8;
    assert b == n / 64;
    assert n == 512 * c + (64 * (b % 8) + 8 * (a % 8) + n % 8);
  }

  /** `mode != '755'` and `mode != '644'` test the permission bits. */
  lemma ModeTextMeaning(n: nat)
    requires n >= 64
    ensures ModeText(n) == "755" <==> n % 512 == 0x1ED
    ensures ModeText(n) == "644" <==> n % 512 == 0x1A4
  {
    ModeTextDigits(n);
    PermissionBits(n);
  }

  function FixPermissionsDecision(p: Path, view: View): (d: Decision)
    ensures p !in view.stats ==> d == (if p in view.symlinks then Skip else Reraise)
    ensures p in view.stats ==>
      d == (if view.IsDir(p) && ModeText(view.stats[p].stMode) != "755" then Emit(FsOps.Chmod(p, 0x1ED))
            else if view.IsFile(p) && ModeText(view.stats[p].stMode) != "644" then Emit(FsOps.Chmod(p, 0x1A4))
            else InvalidType)
  {
    if p !in view.stats then (if p in view.symlinks then Skip else Reraise)
    else
      var mode := ModeText(view.stats[p].stMode);
      if view.IsDir(p) && mode != "755" then Emit(FsOps.Chmod(p, 0x1ED))
      else if view.IsFile(p) && mode != "644" then Emit(FsOps.Chmod(p, 0x1A4))
      else InvalidType
  }

  /**
   * In permission-bit terms: chmod 755 for a directory not at 755, chmod
   * 644 for a file not at 644, and `InvalidFileTypeError` for everything
   * else, entries already right included.
   */
  lemma FixPermissionsCases(p: Path, view: View)
    requires p in view.stats && view.stats[p].stMode >= 64
    ensures var bits := view.stats[p].stMode % 512;
      var d := FixPermissionsDecision(p, view);
      (view.IsDir(p) ==> d == (if bits != 0x1ED then Emit(FsOps.Chmod(p, 0x1ED)) else InvalidType))
      && (view.IsFile(p) ==> d == (if bits != 0x1A4 then Emit(FsOps.Chmod(p, 0x1A4)) else InvalidType))
      && (!view.IsDir(p) && !view.IsFile(p) ==> d == InvalidType)
  {
    ModeTextMeaning(view.stats[p].stMode);
  }

  // ---------------------------------------------------------------------
  // ImageReduce and SubtitleExtension
  // ---------------------------------------------------------------------

  /** Images whose larger side is above this are reduced. */
  const Threshold: nat := 2160

  /**
   * `ImageReduce.process`: for a file PIL can open, a resize when its
   * larger side exceeds the threshold. `size` is the opened image's size,
   * or None when opening fails.
   */
  function ImageReduceDecision(p: Path, view: View, size: Option<(nat, nat)>): (d: Decision)
    ensures d.Emit? <==> view.IsFile(p) && size.Some? && (size.value.0 > Threshold || size.value.1 > Threshold)
    ensures d.Emit? ==> d.op == FsOps.Custom("resize", [ToString(p)], [])
    ensures !d.Emit? ==> d == Skip
  {
    if !view.IsFile(p) || size.None? then Skip
    else
      var (w, h) := size.value;
      if w >= h && w > Threshold then Emit(FsOps.Custom("resize", [ToString(p)], []))
      else if h >= w && h > Threshold then Emit(FsOps.Custom("resize", [ToString(p)], []))
      else Skip
  }

  /** `process` of each extension. `SubtitleExtension` does nothing. */
  function Process(ext: Extension, p: Path, view: View, sizes: Path -> Option<(nat, nat)>): (d: Decision)
    ensures ext == Subtitles ==> d == Skip
    ensures d == InvalidType || d == Reraise ==> ext == FixPermissions
  {
    match ext
    case DeOSXfy => DeOSXfyDecision(p, view)
    case FixExtension => FixExtensionDecision(p, view)
    case ImageReduce => ImageReduceDecision(p, view, sizes(p))
    case FixPermissions => FixPermissionsDecision(p, view)
    case Subtitles => Skip
  }

  // ---------------------------------------------------------------------
  // The app
  // ---------------------------------------------------------------------

  /** What a decision makes the app do: execute an operation, or stop on the re-raised error. */
  datatype Action = Exec(op: FsOps.Operation) | Abort(path: Path)

  datatype RunError = ExecFailed(error: FsOps.ExecError) | Vanished(path: Path)

  /** `InvalidFileTypeError` is logged and skipped; None and `NoopOperation` are not executed. */
  function ActionsOf(d: Decision, p: Path): (r: seq<Action>)
    ensures |r| <= 1
    ensures r != [] ==> (d.Emit? && !d.op.Noop? && r == [Exec(d.op)]) || (d == Reraise && r == [Abort(p)])
  {
    match d
    case Emit(op) => if op.Noop? then [] else [Exec(op)]
    case Reraise => [Abort(p)]
    case _ => []
  }

  /** The entries of a walk: each directory's sub-directories, then its files. */
  function WalkEntries(steps: seq<FsOps.WalkStep>): seq<Path>
  {
    if steps == [] then [] else Under(steps[0].0, steps[0].1 + steps[0].2) + WalkEntries(steps[1..])
  }

  function EntryActions(ext: Extension, ps: seq<Path>, view: View, sizes: Path -> Option<(nat, nat)>): seq<Action>
  {
    if ps == [] then [] else ActionsOf(Process(ext, ps[0], view, sizes), ps[0]) + EntryActions(ext, ps[1..], view, sizes)
  }

  /** `_run_extension`: one extension over every path's walk. */
  function ExtensionActions(ext: Extension, paths: seq<Path>, walk: Path -> seq<FsOps.WalkStep>, view: View,
                            sizes: Path -> Option<(nat, nat)>): seq<Action>
  {
    if paths == [] then []
    else EntryActions(ext, WalkEntries(walk(paths[0])), view, sizes) + ExtensionActions(ext, paths[1..], walk, view, sizes)
  }

  /** `App.run`: each extension in turn over all the paths. */
  function Plan(exts: seq<Extension>, paths: seq<Path>, walk: Path -> seq<FsOps.WalkStep>, view: View,
                sizes: Path -> Option<(nat, nat)>): seq<Action>
  {
    if exts == [] then [] else ExtensionActions(exts[0], paths, walk, view, sizes) + Plan(exts[1..], paths, walk, view, sizes)
  }

  /** The actions carried out in order, up to the first error. */
  function Perform(entries: map<Path, FsOps.Times>, actions: seq<Action>, call: FsOps.CustomFn)
    : (r: (Option<RunError>, map<Path, FsOps.Times>))
    decreases |actions|
  {
    if actions == [] then (None, entries)
    else match actions[0]
      case Abort(p) => (Some(Vanished(p)), entries)
      case Exec(op) =>
        var s := FsOps.Step(entries, Some(op), call);
        if s.0.Raised? then (Some(ExecFailed(s.0.error)), s.1) else Perform(s.1, actions[1..], call)
  }

  lemma {:induction false} PerformAppend(entries: map<Path, FsOps.Times>, a: seq<Action>, b: seq<Action>, call: FsOps.CustomFn)
    ensures Perform(entries, a + b, call) ==
      (var s := Perform(entries, a, call); if s.0.Some? then s else Perform(s.1, b, call))
    decreases |a|
  {
    if a == [] {
      assert a + b == b;
    } else {
      assert (a + b)[1..] == a[1..] + b;
      assert (a + b)[0] == a[0];
      if a[0].Exec? {
        var s := FsOps.Step(entries, Some(a[0].op), call);
        if s.0.Done? || s.0.Returned? {
          PerformAppend(s.1, a[1..], b, call);
        }
      }
    }
  }

  /** An app whose only extension is `SubtitleExtension` never acts. */
  lemma {:induction false} SubtitlesOnlyDoNothing(ps: seq<Path>, view: View, sizes: Path -> Option<(nat, nat)>)
    ensures EntryActions(Subtitles, ps, view, sizes) == []
  {
    if ps != [] {
      SubtitlesOnlyDoNothing(ps[1..], view, sizes);
    }
  }

  /** Every action of an extension's pass comes from that extension's decision on some entry. */
  lemma {:induction false} ActionsFromEntries(ext: Extension, ps: seq<Path>, view: View, sizes: Path -> Option<(nat, nat)>,
                                              a: Action)
    requires a in EntryActions(ext, ps, view, sizes)
    ensures exists p :: p in ps && a in ActionsOf(Process(ext, p, view, sizes), p)
  {
    if a !in ActionsOf(Process(ext, ps[0], view, sizes), ps[0]) {
      ActionsFromEntries(ext, ps[1..], view, sizes, a);
    }
  }

  class App {
    var extensions: seq<Extension>
    var fs: FsOps.Filesystem

    /** `App.__init__`: no extensions when none are given. */
    constructor(extensions: Option<seq<Extension>>, fs: FsOps.Filesystem)
      ensures this.extensions == (if extensions.None? then [] else extensions.value)
      ensures this.fs == fs
    {
      this.extensions := if extensions.None? then [] else extensions.value;
      this.fs := fs;
    }

    /** `_run_extension_on_path` over a list of entries. */
    method RunEntries(ext: Extension, ps: seq<Path>, view: View, sizes: Path -> Option<(nat, nat)>, call: FsOps.CustomFn)
      returns (err: Option<RunError>)
      modifies fs
      ensures (err, fs.entries) == Perform(old(fs.entries), EntryActions(ext, ps, view, sizes), call)
    {
      for i := 0 to |ps|
        invariant Perform(old(fs.entries), EntryActions(ext, ps, view, sizes), call)
               == Perform(fs.entries, EntryActions(ext, ps[i..], view, sizes), call)
      {
        assert ps[i..][1..] == ps[i + 1..];
        var d := Process(ext, ps[i], view, sizes);
        PerformAppend(fs.entries, ActionsOf(d, ps[i]), EntryActions(ext, ps[i + 1..], view, sizes), call);
        if d == Reraise {
          return Some(Vanished(ps[i]));
        }
        if d.Emit? && !d.op.Noop? {
          var r := fs.Execute(Some(d.op), call);
          if r.Raised? {
            return Some(ExecFailed(r.error));
          }
        }
      }
      assert ps[|ps|..] == [];
      err := None;
    }

    /** `_run_extension`: one extension over every path's walk. */
    method RunExtension(ext: Extension, paths: seq<Path>, walk: Path -> seq<FsOps.WalkStep>, view: View,
                        sizes: Path -> Option<(nat, nat)>, call: FsOps.CustomFn)
      returns (err: Option<RunError>)
      modifies fs
      ensures (err, fs.entries) == Perform(old(fs.entries), ExtensionActions(ext, paths, walk, view, sizes), call)
    {
      for i := 0 to |paths|
        invariant Perform(old(fs.entries), ExtensionActions(ext, paths, walk, view, sizes), call)
               == Perform(fs.entries, ExtensionActions(ext, paths[i..], walk, view, sizes), call)
      {
        assert paths[i..][1..] == paths[i + 1..];
        var entries := WalkEntries(walk(paths[i]));
        PerformAppend(fs.entries, EntryActions(ext, entries, view, sizes),
                      ExtensionActions(ext, paths[i + 1..], walk, view, sizes), call);
        err := RunEntries(ext, entries, view, sizes, call);
        if err.Some? {
          return;
        }
      }
      assert paths[|paths|..] == [];
      err := None;
    }

    /** `App.run`. */
    method Run(paths: seq<Path>, walk: Path -> seq<FsOps.WalkStep>, view: View, sizes: Path -> Option<(nat, nat)>,
               call: FsOps.CustomFn)
      returns (err: Option<RunError>)
      modifies fs
      ensures (err, fs.entries) == Perform(old(fs.entries), Plan(extensions, paths, walk, view, sizes), call)
    {
      var exts := extensions;
      for k := 0 to |exts|
        invariant Perform(old(fs.entries), Plan(exts, paths, walk, view, sizes), call)
               == Perform(fs.entries, Plan(exts[k..], paths, walk, view, sizes), call)
      {
        assert exts[k..][1..] == exts[k + 1..];
        PerformAppend(fs.entries, ExtensionActions(exts[k], paths, walk, view, sizes),
                      Plan(exts[k + 1..], paths, walk, view, sizes), call);
        err := RunExtension(exts[k], paths, walk, view, sizes, call);
        if err.Some? {
          return;
        }
      }
      assert exts[|exts|..] == [];
      err := None;
    }
  }

  // ---------------------------------------------------------------------
  // Extension selection in `main`
  // ---------------------------------------------------------------------

  /** The command-line switches, one per extension. */
  datatype Flags = Flags(deosxfy: bool, ext: bool, imageReduce: bool, perms: bool, subtitles: bool, all: bool)

  const Order: seq<Extension> := [DeOSXfy, FixExtension, ImageReduce, FixPermissions, Subtitles]

  predicate Enabled(flags: Flags, e: Extension)
  {
    flags.all ||
    match e
    case DeOSXfy => flags.deosxfy
    case FixExtension => flags.ext
    case ImageReduce => flags.imageReduce
    case FixPermissions => flags.perms
    case Subtitles => flags.subtitles
  }

  /** The loop of `main`: the enabled extensions of `order`, in that order. */
  function Select(flags: Flags, order: seq<Extension>): (r: seq<Extension>)
    ensures forall e :: e in r <==> e in order && Enabled(flags, e)
    ensures |r| <= |order|
  {
    if order == [] then []
    else (if Enabled(flags, order[0]) then [order[0]] else []) + Select(flags, order[1..])
  }

  /** The selection keeps the fixed order: it is `Order` with the disabled extensions left out. */
  lemma SelectOrdered(flags: Flags)
    ensures OrderedFrom(Select(flags, Order), 0)
  {
    SelectOrderedFrom(flags, Order, 0);
  }

  function IndexIn(e: Extension): nat
  {
    match e
    case DeOSXfy => 0
    case FixExtension => 1
    case ImageReduce => 2
    case FixPermissions => 3
    case Subtitles => 4
  }

  /** Every extension of `r` comes at or after position `k` of `Order`, and `r` keeps `Order`'s order. */
  predicate OrderedFrom(r: seq<Extension>, k: nat)
  {
    (forall i :: 0 <= i < |r| ==> IndexIn(r[i]) >= k)
    && forall i, j :: 0 <= i < j < |r| ==> IndexIn(r[i]) < IndexIn(r[j])
  }

  lemma {:induction false} SelectOrderedFrom(flags: Flags, order: seq<Extension>, k: nat)
    requires forall i :: 0 <= i < |order| ==> IndexIn(order[i]) == k + i
    ensures OrderedFrom(Select(flags, order), k)
    decreases |order|
  {
    if order != [] {
      var rest := Select(flags, order[1..]);
      assert forall i :: 0 <= i < |order[1..]| ==> order[1..][i] == order[i + 1];
      SelectOrderedFrom(flags, order[1..], k + 1);
      if Enabled(flags, order[0]) {
        ConsOrdered(order[0], rest, k);
      }
    }
  }

  /** An extension at position `k` in front of a selection from after `k`. */
  lemma ConsOrdered(e: Extension, rest: seq<Extension>, k: nat)
    requires IndexIn(e) == k && OrderedFrom(rest, k + 1)
    ensures OrderedFrom([e] + rest, k)
  {
    var r := [e] + rest;
    assert forall i :: 1 <= i < |r| ==> r[i] == rest[i - 1];
  }

  /** `--all` enables every extension, in the fixed order. */
  lemma {:induction false} AllSelectsEverything(flags: Flags, order: seq<Extension>)
    requires flags.all
    ensures Select(flags, order) == order
  {
    if order != [] {
      AllSelectsEverything(flags, order[1..]);
      assert [order[0]] + order[1..] == order;
    }
  }
}
