/**
 * The operation executor of the old tools: operation records, the real
 * file system that carries them out, the dry-run file system that prints
 * the equivalent shell command, and `walk_and_run`.
 */
module FsOps {
  import opened Common
  import opened Strings
  import opened Paths
  import opened Seqs

  /** The operation records; `None` stands for the absent operation. */
  datatype Operation =
    | Noop
    | Custom(fnName: string, args: seq<string>, kwargs: seq<(string, string)>)
    | Rename(src: Path, dest: Path)
    | Chmod(path: Path, mode: nat)
    | Delete(path: Path)
    | SetTimestamp(path: Path, timestamp: int, setMtime: bool, setAtime: bool)

  /** The two times `os.utime` sets. */
  datatype Times = Times(atime: int, mtime: int)

  datatype ExecError =
    | DestinationExists(op: Operation)    // OperationalError
    | NoSuchFile(path: Path)               // from shutil.move or os.stat
    | NotImplemented(op: Operation)        // NotImplementedError

  datatype Outcome = Done | Returned(value: string) | Raised(error: ExecError)

  /** A custom operation's function, applied to its name, arguments and keyword arguments. */
  type CustomFn = (string, seq<string>, seq<(string, string)>) -> string

  /** The new times of a SetTimestamp: the timestamp where asked, the current value elsewhere. */
  function NewTimes(st: Times, timestamp: int, setMtime: bool, setAtime: bool): (t: Times)
    ensures t.mtime == (if setMtime then timestamp else st.mtime)
    ensures t.atime == (if setAtime then timestamp else st.atime)
  {
    Times(if setAtime then timestamp else st.atime, if setMtime then timestamp else st.mtime)
  }

  /** `Filesystem.execute` on a map from paths to their times. */
  function Step(entries: map<Path, Times>, op: Option<Operation>, call: CustomFn): (r: (Outcome, map<Path, Times>))
    ensures r.0.Returned? <==> op.Some? && op.value.Custom?
    ensures r.0.Raised? ==> r.1 == entries
    ensures op.None? || op == Some(Noop) ==> r == (Done, entries)
    ensures op.Some? && (op.value.Chmod? || op.value.Delete?) ==> r == (Raised(NotImplemented(op.value)), entries)
    ensures op.Some? && op.value.Rename? ==>
      (op.value.dest in entries ==> r == (Raised(DestinationExists(op.value)), entries))
      && (op.value.dest !in entries && op.value.src !in entries ==> r == (Raised(NoSuchFile(op.value.src)), entries))
      && (op.value.dest !in entries && op.value.src in entries ==>
            r.0 == Done && r.1 == entries - {op.value.src}
              + map[op.value.dest := entries[op.value.src]])
    ensures op.Some? && op.value.SetTimestamp? ==>
      (op.value.path !in entries ==> r == (Raised(NoSuchFile(op.value.path)), entries))
      && (op.value.path in entries ==>
            r.0 == Done && r.1.Keys == entries.Keys
            && r.1[op.value.path] == NewTimes(entries[op.value.path], op.value.timestamp, op.value.setMtime, op.value.setAtime)
            && forall q :: q in entries && q != op.value.path ==> r.1[q] == entries[q])
    ensures op.Some? && op.value.Custom? ==> r == (Returned(call(op.value.fnName, op.value.args, op.value.kwargs)), entries)
  {
    match op
    case None => (Done, entries)
    case Some(o) =>
      match o
      case Noop => (Done, entries)
      case Rename(src, dest) =>
        if dest in entries then (Raised(DestinationExists(o)), entries)
        else if src !in entries then (Raised(NoSuchFile(src)), entries)
        else (Done, entries - {src} + map[dest := entries[src]])
      case SetTimestamp(path, timestamp, setMtime, setAtime) =>
        if path !in entries then (Raised(NoSuchFile(path)), entries)
        else (Done, entries[path := NewTimes(entries[path], timestamp, setMtime, setAtime)])
      case Custom(fnName, args, kwargs) => (Returned(call(fnName, args, kwargs)), entries)
      case Chmod(_, _) => (Raised(NotImplemented(o)), entries)
      case Delete(_) => (Raised(NotImplemented(o)), entries)
  }

  /** The real file system, reduced to the times of every existing path. */
  class Filesystem {
    var entries: map<Path, Times>

    constructor(entries0: map<Path, Times>)
      ensures entries == entries0
    {
      entries := entries0;
    }

    /** `Filesystem.execute`. */
    method Execute(op: Option<Operation>, call: CustomFn) returns (r: Outcome)
      modifies this
      ensures (r, entries) == Step(old(entries), op, call)
    {
      if op.None? || op.value.Noop? {
        return Done;
      }
      var o := op.value;
      if o.Rename? {
        if o.dest in entries {
          return Raised(DestinationExists(o));
        }
        if o.src !in entries {
          return Raised(NoSuchFile(o.src));
        }
        entries := entries - {o.src} + map[o.dest := entries[o.src]];
        return Done;
      } else if o.SetTimestamp? {
        if o.path !in entries {
          return Raised(NoSuchFile(o.path));
        }
        var st := entries[o.path];
        var mtime := if o.setMtime then o.timestamp else st.mtime;
        var atime := if o.setAtime then o.timestamp else st.atime;
        entries := entries[o.path := Times(atime, mtime)];
        return Done;
      } else if o.Custom? {
        return Returned(call(o.fnName, o.args, o.kwargs));
      }
      return Raised(NotImplemented(o));
    }
  }

  /** Renaming back undoes a successful rename. */
  lemma RenameBack(entries: map<Path, Times>, a: Path, b: Path, call: CustomFn)
    requires a in entries && b !in entries
    ensures var s1 := Step(entries, Some(Rename(a, b)), call);
      s1.0 == Done && Step(s1.1, Some(Rename(b, a)), call) == (Done, entries)
  {
    var e1 := entries - {a} + map[b := entries[a]];
    var e2 := e1 - {b} + map[a := e1[b]];
    assert e2 == entries;
  }

  /** Setting a timestamp twice is the same as setting it once. */
  lemma SetTimestampIdempotent(entries: map<Path, Times>, p: Path, t: int, setMtime: bool, setAtime: bool, call: CustomFn)
    ensures var op := Some(SetTimestamp(p, t, setMtime, setAtime));
      var s1 := Step(entries, op, call);
      Step(s1.1, op, call) == s1
  {
    if p in entries {
      var t1 := NewTimes(entries[p], t, setMtime, setAtime);
      var e1 := entries[p := t1];
      assert NewTimes(t1, t, setMtime, setAtime) == t1;
      assert e1[p := t1] == e1;
    }
  }

  // ---------------------------------------------------------------------
  // The dry-run file system

  /** One character as `escape` writes it: backslash and quote get a backslash. */
  function EscapeChar(c: char): (r: string)
    ensures |r| == 1 || |r| == 2
  {
    if c == '\\' then "\\\\" else if c == '\'' then "\\'" else [c]
  }

  function EscapeChars(s: string): string
  {
    if s == [] then [] else EscapeChar(s[0]) + EscapeChars(s[1..])
  }

  /** `escape`: backslashes are doubled first, then single quotes get a backslash. */
  function Escape(s: string): (r: string)
    ensures r == EscapeChars(s)
  {
    EscapeIsPerChar(s);
    Replace(Replace(s, "\\", "\\\\"), "'", "\\'")
  }

  /** Replacing a single character works character by character. */
  lemma ReplaceOneChar(s: string, c: char, q: string)
    ensures s != [] ==> Replace(s, [c], q) == (if s[0] == c then q else [s[0]]) + Replace(s[1..], [c], q)
    ensures s == [] ==> Replace(s, [c], q) == []
  {
    if s != [] {
      assert s[..1] == [c] <==> s[0] == c;
    }
  }

  /** Replacing one character, written character by character. */
  function ReplaceEach(s: string, c: char, q: string): string
  {
    if s == [] then [] else (if s[0] == c then q else [s[0]]) + ReplaceEach(s[1..], c, q)
  }

  lemma {:induction false} ReplaceIsEach(s: string, c: char, q: string)
    ensures Replace(s, [c], q) == ReplaceEach(s, c, q)
  {
    ReplaceOneChar(s, c, q);
    if s != [] {
      ReplaceIsEach(s[1..], c, q);
    }
  }

  lemma {:induction false} ReplaceEachAppend(a: string, b: string, c: char, q: string)
    ensures ReplaceEach(a + b, c, q) == ReplaceEach(a, c, q) + ReplaceEach(b, c, q)
  {
    if a == [] {
      assert a + b == b;
    } else {
      assert (a + b)[0] == a[0] && (a + b)[1..] == a[1..] + b;
      ReplaceEachAppend(a[1..], b, c, q);
    }
  }

  lemma {:induction false} EscapeIsPerChar(s: string)
    ensures Replace(Replace(s, "\\", "\\\\"), "'", "\\'") == EscapeChars(s)
  {
    assert "\\" == ['\\'] && "'" == ['\''];
    ReplaceIsEach(s, '\\', "\\\\");
    ReplaceIsEach(ReplaceEach(s, '\\', "\\\\"), '\'', "\\'");
    EachEscape(s);
  }

  lemma {:induction false} EachEscape(s: string)
    ensures ReplaceEach(ReplaceEach(s, '\\', "\\\\"), '\'', "\\'") == EscapeChars(s)
  {
    if s != [] {
      var head := if s[0] == '\\' then "\\\\" else [s[0]];
      var tail := ReplaceEach(s[1..], '\\', "\\\\");
      ReplaceEachAppend(head, tail, '\'', "\\'");
      EachEscape(s[1..]);
      assert ReplaceEach(head, '\'', "\\'") == EscapeChar(s[0]);
    }
  }

  /** Reading an escaped string back: a backslash takes the next character literally. */
  function Unescape(t: string): string
  {
    if t == [] then []
    else if t[0] == '\\' && |t| >= 2 then [t[1]] + Unescape(t[2..])
    else [t[0]] + Unescape(t[1..])
  }

  /** Escaping loses nothing: reading the escaped text back gives the original. */
  lemma {:induction false} EscapeRoundTrip(s: string)
    ensures Unescape(Escape(s)) == s
  {
    if s != [] {
      EscapeRoundTrip(s[1..]);
      var e := EscapeChar(s[0]);
      var t := e + EscapeChars(s[1..]);
      if |e| == 2 {
        assert t[2..] == EscapeChars(s[1..]);
      } else {
        assert t[1..] == EscapeChars(s[1..]);
      }
    }
  }

  /** Octal digits of `n`, as `format(n, "o")` writes them. */
  function Octal(n: nat): (r: string)
    ensures r != [] && forall i :: 0 <= i < |r| ==> '0' <= r[i] <= '7'
    decreases n
  {
    if n < 8 then [('0' as int + n) as char]
    else Octal(n / 8) + [('0' as int + n % 8) as char]
  }

  function OctalValue(s: string): int
  {
    if s == [] then 0 else 8 * OctalValue(s[..|s| - 1]) + (s[|s| - 1] as int - '0' as int)
  }

  lemma {:induction false} OctalRoundTrip(n: nat)
    ensures OctalValue(Octal(n)) == n
    decreases n
  {
    if n >= 8 {
      OctalRoundTrip(n / 8);
      var o := Octal(n);
      assert o[..|o| - 1] == Octal(n / 8);
    }
  }

  /** Which flags `touch` is given: `-a` from `set_atime`, and `-m` as read. */
  datatype Reading = AsWritten | Intended

  function TouchFlags(setMtime: bool, setAtime: bool, reading: Reading): (bool, bool)
  {
    (setAtime, if reading == AsWritten then setAtime else setMtime)
  }

  /**
   * What `touch -t` changes given its (-a, -m) flags, as
   * (atime, mtime): with neither flag it changes both.
   */
  function TouchChanges(flags: (bool, bool)): (bool, bool)
  {
    if !flags.0 && !flags.1 then (true, true) else flags
  }

  /** The dry-run line for an operation; `stamp` stands for the strftime of the timestamp. */
  function DryRunCommand(op: Option<Operation>, stamp: int -> string, reading: Reading): string
  {
    match op
    case None => ": noop"
    case Some(o) =>
      match o
      case Noop => ": noop"
      case Rename(src, dest) => "mv -b '" + Escape(ToString(src)) + "' '" + Escape(ToString(dest)) + "'"
      case SetTimestamp(path, timestamp, setMtime, setAtime) =>
        var flags := TouchFlags(setMtime, setAtime, reading);
        "touch " + (if flags.0 then "-a" else "") + " " + (if flags.1 then "-m" else "") + " "
          + "-t '" + stamp(timestamp) + "' '" + Escape(ToString(path)) + "'"
      case Custom(fnName, args, kwargs) => fnName + "(" + CallArgs(args, kwargs) + ")"
      case Chmod(path, mode) => "chmod " + Octal(mode) + " '" + ToString(path) + "'"
      case Delete(path) => "rm -rf -- '" + ToString(path) + "'"
  }

  /** `", ".join` of the given pieces. */
  function CommaJoin(parts: seq<string>): (r: string)
    ensures parts == [] ==> r == []
  {
    if parts == [] then [] else if |parts| == 1 then parts[0] else parts[0] + ", " + CommaJoin(parts[1..])
  }

  function KeywordArgs(kwargs: seq<(string, string)>): (r: seq<string>)
    ensures |r| == |kwargs|
  {
    if kwargs == [] then [] else [kwargs[0].0 + "=" + kwargs[0].1] + KeywordArgs(kwargs[1..])
  }

  /** The argument list of a custom call; keyword arguments follow after ", " whenever present. */
  function CallArgs(args: seq<string>, kwargs: seq<(string, string)>): string
  {
    var a := CommaJoin(args);
    var k := CommaJoin(KeywordArgs(kwargs));
    if k != [] then a + ", " + k else a
  }

  /**
   * As written, a timestamp set on mtime only prints `touch` with no
   * flag, which changes both times, while the real file system keeps the
   * access time.
   */
  lemma TouchAsWrittenChangesAccessTime()
    ensures TouchChanges(TouchFlags(true, false, AsWritten)) == (true, true)
    ensures TouchChanges(TouchFlags(true, false, Intended)) == (false, true)
  {
  }

  /**
   * Read as intended, the printed `touch` changes exactly the times the
   * real execution sets, whenever it sets one.
   */
  lemma TouchIntendedMatchesExecute(entries: map<Path, Times>, p: Path, t: int, setMtime: bool, setAtime: bool,
                                    call: CustomFn)
    requires p in entries && (setMtime || setAtime)
    requires entries[p].atime != t && entries[p].mtime != t
    ensures var changes := TouchChanges(TouchFlags(setMtime, setAtime, Intended));
      var after := Step(entries, Some(SetTimestamp(p, t, setMtime, setAtime)), call).1[p];
      changes == (after.atime != entries[p].atime, after.mtime != entries[p].mtime)
  {
  }

  // ---------------------------------------------------------------------
  // walk_and_run

  /** One `os.walk` step: a directory, its subdirectory names and its file names. */
  type WalkStep = (string, seq<string>, seq<string>)

  /** What `walk_and_run` does, in order: `filter_fn` on a walked directory, or `fn` on a path. */
  datatype Invocation = Filtered(dirname: string) | Ran(path: Path)

  function Children(dirname: string, names: seq<string>): (r: seq<Invocation>)
    ensures |r| == |names|
  {
    if names == [] then [] else [Ran(Path(dirname, names[0]))] + Children(dirname, names[1..])
  }

  /** The calls of one walked directory: the filter, then every directory child, then every file child. */
  function DirCalls(step: WalkStep, hasFilter: bool): (r: seq<Invocation>)
    ensures r == (if hasFilter then [Filtered(step.0)] else []) + Children(step.0, step.1) + Children(step.0, step.2)
  {
    ChildrenAppend(step.0, step.1, step.2);
    (if hasFilter then [Filtered(step.0)] else []) + Children(step.0, step.1 + step.2)
  }

  /** The calls of the walked directories, in walk order. */
  function StepCalls(steps: seq<WalkStep>, hasFilter: bool): seq<Invocation>
  {
    ConcatMap(steps, step => DirCalls(step, hasFilter))
  }

  lemma StepCallsAppend(a: seq<WalkStep>, b: seq<WalkStep>, hasFilter: bool)
    ensures StepCalls(a + b, hasFilter) == StepCalls(a, hasFilter) + StepCalls(b, hasFilter)
  {
    ConcatMapAppend(a, b, step => DirCalls(step, hasFilter));
  }

  /** The calls of the k-th walked directory sit between those of the directories before and after it. */
  lemma StepCallsAt(steps: seq<WalkStep>, hasFilter: bool, k: nat)
    requires k < |steps|
    ensures StepCalls(steps, hasFilter)
         == StepCalls(steps[..k], hasFilter) + DirCalls(steps[k], hasFilter) + StepCalls(steps[k + 1..], hasFilter)
  {
    assert steps == steps[..k] + steps[k..];
    StepCallsAppend(steps[..k], steps[k..], hasFilter);
    StepCallsStep(StepCalls(steps[..k], hasFilter), steps, hasFilter, k);
  }

  /** Emitting the calls of the k-th directory after `done` leaves the later directories to do. */
  lemma StepCallsStep(done: seq<Invocation>, steps: seq<WalkStep>, hasFilter: bool, k: nat)
    requires k < |steps|
    ensures (done + DirCalls(steps[k], hasFilter)) + StepCalls(steps[k + 1..], hasFilter)
         == done + StepCalls(steps[k..], hasFilter)
  {
    ConcatMapStep(done, steps, step => DirCalls(step, hasFilter), k);
  }

  /** Emitting the calls of the i-th target after `done` leaves the later targets to do. */
  lemma WalkCallsStep(done: seq<Invocation>, ps: seq<Path>, isFile: Path -> bool, walk: Path -> seq<WalkStep>,
                      recurse: bool, hasFilter: bool, i: nat)
    requires i < |ps|
    ensures (done + TargetCalls(ps[i], isFile, walk, recurse, hasFilter)) + WalkCalls(ps[i + 1..], isFile, walk, recurse, hasFilter)
         == done + WalkCalls(ps[i..], isFile, walk, recurse, hasFilter)
  {
    ConcatMapStep(done, ps, p => TargetCalls(p, isFile, walk, recurse, hasFilter), i);
  }

  function TargetCalls(p: Path, isFile: Path -> bool, walk: Path -> seq<WalkStep>, recurse: bool, hasFilter: bool)
    : (r: seq<Invocation>)
    ensures isFile(p) || !recurse ==> r == [Ran(p)]
  {
    if isFile(p) || !recurse then [Ran(p)] else StepCalls(walk(p), hasFilter)
  }

  function WalkCalls(ps: seq<Path>, isFile: Path -> bool, walk: Path -> seq<WalkStep>, recurse: bool, hasFilter: bool)
    : seq<Invocation>
  {
    ConcatMap(ps, p => TargetCalls(p, isFile, walk, recurse, hasFilter))
  }

  /** Without recursion `fn` is called on each target once, in order. */
  lemma {:induction false} WalkCallsFlat(ps: seq<Path>, isFile: Path -> bool, walk: Path -> seq<WalkStep>, hasFilter: bool)
    ensures var r := WalkCalls(ps, isFile, walk, false, hasFilter);
      |r| == |ps| && forall i :: 0 <= i < |ps| ==> r[i] == Ran(ps[i])
  {
    if ps != [] {
      WalkCallsFlat(ps[1..], isFile, walk, hasFilter);
      var rest := WalkCalls(ps[1..], isFile, walk, false, hasFilter);
      assert WalkCalls(ps, isFile, walk, false, hasFilter) == [Ran(ps[0])] + rest;
      forall i | 1 <= i < |ps| ensures ([Ran(ps[0])] + rest)[i] == Ran(ps[i]) {
        assert ps[1..][i - 1] == ps[i];
      }
    }
  }

  /** `walk_and_run`, returning the calls it makes in order. */
  method WalkAndRun(ps: seq<Path>, isFile: Path -> bool, walk: Path -> seq<WalkStep>, recurse: bool, hasFilter: bool)
    returns (calls: seq<Invocation>)
    ensures calls == WalkCalls(ps, isFile, walk, recurse, hasFilter)
  {
    calls := [];
    for i := 0 to |ps|
      invariant calls + WalkCalls(ps[i..], isFile, walk, recurse, hasFilter) == WalkCalls(ps, isFile, walk, recurse, hasFilter)
    {
      WalkCallsStep(calls, ps, isFile, walk, recurse, hasFilter, i);
      var p := ps[i];
      var own: seq<Invocation>;
      if isFile(p) || !recurse {
        own := [Ran(p)];
      } else {
        own := RunWalked(walk(p), hasFilter);
      }
      assert own == TargetCalls(p, isFile, walk, recurse, hasFilter);
      calls := calls + own;
    }
    assert ps[|ps|..] == [];
  }

  /** The walking branch of `walk_and_run` for one target. */
  method RunWalked(steps: seq<WalkStep>, hasFilter: bool) returns (calls: seq<Invocation>)
    ensures calls == StepCalls(steps, hasFilter)
  {
    calls := [];
    for k := 0 to |steps|
      invariant calls + StepCalls(steps[k..], hasFilter) == StepCalls(steps, hasFilter)
    {
      StepCallsStep(calls, steps, hasFilter, k);
      var dirname := steps[k].0;
      var own: seq<Invocation> := [];
      if hasFilter {
        own := [Filtered(dirname)];
      }
      var children := RunChildren(dirname, steps[k].1 + steps[k].2);
      own := own + children;
      assert own == DirCalls(steps[k], hasFilter);
      calls := calls + own;
    }
    assert steps[|steps|..] == [];
  }

  /** `for child in dirs + files: fn(Path(dirname) / child)`. */
  method RunChildren(dirname: string, children: seq<string>) returns (calls: seq<Invocation>)
    ensures calls == Children(dirname, children)
  {
    calls := [];
    for c := 0 to |children|
      invariant calls + Children(dirname, children[c..]) == Children(dirname, children)
    {
      assert children[c..][1..] == children[c + 1..];
      calls := calls + [Ran(Path(dirname, children[c]))];
    }
    assert children[|children|..] == [];
  }

  lemma {:induction false} ChildrenAppend(dirname: string, a: seq<string>, b: seq<string>)
    ensures Children(dirname, a + b) == Children(dirname, a) + Children(dirname, b)
  {
    if a == [] {
      assert a + b == b;
    } else {
      assert (a + b)[1..] == a[1..] + b;
      ChildrenAppend(dirname, a[1..], b);
    }
  }

  /** Every child of a walked directory is called with its path under that directory, in listing order. */
  lemma {:induction false} ChildrenAt(dirname: string, names: seq<string>, i: nat)
    requires i < |names|
    ensures Children(dirname, names)[i] == Ran(Path(dirname, names[i]))
  {
    if i > 0 {
      ChildrenAt(dirname, names[1..], i - 1);
    }
  }
}
