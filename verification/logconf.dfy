/**
 * Logging configuration of `mediatools/lib/log.py`: the level-spec parser
 * read from the environment, the level name/value conversions, the
 * verbosity adjustment and the once-only `infect`.
 */
module LogConf {
  import opened Common
  import opened Strings

  /** A level as a configuration holds it: a number or a level name. */
  datatype Level = Value(n: int) | Name(s: string)

  datatype LevelError =
    | UnknownName(level: Level)   // `getattr(logging, ...)` raises AttributeError
    | NotStandard(level: Level)   // `log_level_name` raises ValueError

  /**
   * `getattr(logging, name)` for the attributes of the module that are
   * levels. Any other name is treated as missing. The one other upper-case
   * attribute, `BASIC_FORMAT`, is a string, which `setLevel` would refuse
   * with a TypeError rather than an AttributeError.
   */
  function Attribute(name: string): (r: Option<int>)
    ensures r.Some? <==> name in {"NOTSET", "DEBUG", "INFO", "WARNING", "WARN", "ERROR", "CRITICAL", "FATAL"}
    ensures r.Some? ==> r.value in {0, 10, 20, 30, 40, 50}
  {
    if name == "NOTSET" then Some(0)
    else if name == "DEBUG" then Some(10)
    else if name == "INFO" then Some(20)
    else if name == "WARNING" || name == "WARN" then Some(30)
    else if name == "ERROR" then Some(40)
    else if name == "CRITICAL" || name == "FATAL" then Some(50)
    else None
  }

  /** `log_level_value`: a name is looked up upper-cased, a number passes through. */
  function LevelValue(level: Level): (r: Option<int>)
    ensures level.Value? ==> r == Some(level.n)
    ensures level.Name? ==> r == Attribute(Upper(level.s))
  {
    match level
    case Value(n) => Some(n)
    case Name(s) => Attribute(Upper(s))
  }

  /** The names `log_level_name` tries, in its order. */
  const StandardNames: seq<string> := ["DEBUG", "INFO", "WARNING", "ERROR", "CRITICAL"]

  /** The standard names and their levels, ten apart. */
  lemma StandardLevels()
    ensures |StandardNames| == 5
    ensures forall i :: 0 <= i < 5 ==> Attribute(StandardNames[i]) == Some(10 * (i + 1))
  {
    assert Attribute(StandardNames[0]) == Some(10);
    assert Attribute(StandardNames[1]) == Some(20);
    assert Attribute(StandardNames[2]) == Some(30);
    assert Attribute(StandardNames[3]) == Some(40);
    assert Attribute(StandardNames[4]) == Some(50);
  }

  /** The first of `names` whose attribute is `v`. */
  function FirstNamed(v: int, names: seq<string>): (r: Option<nat>)
    ensures r.Some? ==>
      r.value < |names| && Attribute(names[r.value]) == Some(v)
      && forall j :: 0 <= j < r.value ==> Attribute(names[j]) != Some(v)
    ensures r.None? ==> forall j :: 0 <= j < |names| ==> Attribute(names[j]) != Some(v)
  {
    if names == [] then None
    else if Attribute(names[0]) == Some(v) then Some(0)
    else
      var k := FirstNamed(v, names[1..]);
      if k.None? then None else Some(k.value + 1)
  }

  /** `log_level_name`. */
  function LevelName(level: Level): (r: Result<string, LevelError>)
    ensures r.Ok? ==> r.value in StandardNames && Attribute(r.value) == LevelValue(level)
    ensures r == Err(UnknownName(level)) <==> LevelValue(level).None?
    ensures r == Err(NotStandard(level)) <==> LevelValue(level).Some? && LevelValue(level).value !in {10, 20, 30, 40, 50}
  {
    var v := LevelValue(level);
    if v.None? then Err(UnknownName(level))
    else
      var found := FirstNamed(v.value, StandardNames);
      StandardLevels();
      if found.None? then
        assert v.value !in {10, 20, 30, 40, 50} by {
          assert Attribute(StandardNames[0]) != Some(v.value) && Attribute(StandardNames[1]) != Some(v.value)
            && Attribute(StandardNames[2]) != Some(v.value) && Attribute(StandardNames[3]) != Some(v.value)
            && Attribute(StandardNames[4]) != Some(v.value);
        }
        Err(NotStandard(level))
      else Ok(StandardNames[found.value])
  }

  /** `log_level_name` of a standard level, given by number or by name in any case. */
  lemma NameRoundTrip(i: nat, name: string)
    requires i < 5 && Upper(name) == StandardNames[i]
    ensures LevelName(Value(10 * (i + 1))) == Ok(StandardNames[i])
    ensures LevelName(Name(name)) == Ok(StandardNames[i])
  {
    StandardLevels();
    var k := FirstNamed(10 * (i + 1), StandardNames);
    assert k.Some? && k.value <= i;
    assert k.value == i;
  }

  // ---------------------------------------------------------------------
  // parse_log_str
  // ---------------------------------------------------------------------

  /** A Python dict: its keys in insertion order, and its contents. */
  datatype Dict<V> = Dict(keys: seq<string>, values: map<string, V>)
  {
    ghost predicate Valid()
    {
      (forall i, j :: 0 <= i < j < |keys| ==> keys[i] != keys[j])
      && forall k :: k in values <==> k in keys
    }
  }

  /** `d[k] = v`: a new key goes last, an existing key keeps its place. */
  function Put<V>(d: Dict<V>, k: string, v: V): (r: Dict<V>)
    ensures r.values == d.values[k := v]
  {
    if k in d.values then Dict(d.keys, d.values[k := v]) else Dict(d.keys + [k], d.values[k := v])
  }

  /** Storing keeps a dict well formed. */
  lemma PutValid<V>(d: Dict<V>, k: string, v: V)
    requires d.Valid()
    ensures Put(d, k, v).Valid()
  {
  }

  /** `comp.split(":", 1)`: a component without a colon applies to `"*"`. */
  function Component(comp: string): (r: (string, string))
    ensures ':' !in comp ==> r == ("*", comp)
    ensures ':' in comp ==> r.0 + ":" + r.1 == comp && ':' !in r.0
  {
    var parts := SplitOnce(comp, ':');
    if |parts| == 1 then ("*", parts[0]) else (parts[0], parts[1])
  }

  /** The level a component names, looked up after `level.lower()`. */
  function ComponentLevel(comp: string): Option<int>
  {
    LevelValue(Name(Lower(Component(comp).1)))
  }

  /** What the generator of `parse_log_str` makes of one component: a pair it yields, or a warning. */
  datatype Setting = Known(name: string, value: int) | Unknown(name: string, level: string)

  function Classify(comp: string): Setting
  {
    var lv := ComponentLevel(comp);
    if lv.Some? then Known(Component(comp).0, lv.value) else Unknown(Component(comp).0, Lower(Component(comp).1))
  }

  /** The generator's output, one setting per component, in order. */
  function Settings(comps: seq<string>): (r: seq<Setting>)
    ensures |r| == |comps| && forall i :: 0 <= i < |comps| ==> r[i] == Classify(comps[i])
  {
    seq(|comps|, i requires 0 <= i < |comps| => Classify(comps[i]))
  }

  /** The dict `parse_log_str` builds, and the components it warned about as (name, level). */
  datatype Parsed = Parsed(config: Dict<int>, unknown: seq<(string, string)>)

  /** `dict(fn())`: the yielded pairs stored in order; the warnings kept in order beside them. */
  function Collect(ss: seq<Setting>): Parsed
  {
    if ss == [] then Parsed(Dict([], map[]), [])
    else
      var prev := Collect(ss[..|ss| - 1]);
      var s := ss[|ss| - 1];
      if s.Known? then Parsed(Put(prev.config, s.name, s.value), prev.unknown)
      else Parsed(prev.config, prev.unknown + [(s.name, s.level)])
  }

  function ParseComponents(comps: seq<string>): Parsed
  {
    Collect(Settings(comps))
  }

  lemma {:induction false} CollectValid(ss: seq<Setting>)
    ensures Collect(ss).config.Valid()
  {
    if ss != [] {
      var init := ss[..|ss| - 1];
      CollectValid(init);
      var s := ss[|ss| - 1];
      if s.Known? {
        PutValid(Collect(init).config, s.name, s.value);
      }
    }
  }

  /** The parsed dict is a well-formed dict. */
  lemma ParseValid(comps: seq<string>)
    ensures ParseComponents(comps).config.Valid()
  {
    CollectValid(Settings(comps));
  }

  /** `parse_log_str`: an empty spec gives an empty dict. */
  function ParseLogStr(s: string): (r: Parsed)
    ensures s == [] ==> r == Parsed(Dict([], map[]), [])
    ensures s != [] ==> r == ParseComponents(Split(s, ','))
  {
    if s == [] then Parsed(Dict([], map[]), []) else ParseComponents(Split(s, ','))
  }

  /** Component `comps[i]` sets logger `name` to a known level. */
  predicate Sets(comps: seq<string>, i: int, name: string)
    requires 0 <= i < |comps|
  {
    ComponentLevel(comps[i]).Some? && Component(comps[i]).0 == name
  }

  predicate SetsIn(ss: seq<Setting>, i: int, name: string)
    requires 0 <= i < |ss|
  {
    ss[i].Known? && ss[i].name == name
  }

  lemma {:induction false} CollectNames(ss: seq<Setting>, name: string)
    ensures name in Collect(ss).config.values <==> exists i :: 0 <= i < |ss| && SetsIn(ss, i, name)
  {
    if ss != [] {
      var n := |ss| - 1;
      var init := ss[..n];
      CollectNames(init, name);
      var prev := Collect(init).config.values;
      var s := ss[n];
      assert Collect(ss).config.values == if s.Known? then prev[s.name := s.value] else prev;
      if name in Collect(ss).config.values {
        if name in prev {
          var i :| 0 <= i < n && SetsIn(init, i, name);
          assert init[i] == ss[i];
          assert SetsIn(ss, i, name);
        } else {
          assert SetsIn(ss, n, name);
        }
      }
      if exists i :: 0 <= i < |ss| && SetsIn(ss, i, name) {
        var i :| 0 <= i < |ss| && SetsIn(ss, i, name);
        if i < n {
          assert init[i] == ss[i];
          assert SetsIn(init, i, name);
          assert name in prev;
        }
      }
    }
  }

  /** The parsed dict names exactly the loggers some component sets to a known level. */
  lemma ParseNames(comps: seq<string>, name: string)
    ensures name in ParseComponents(comps).config.values <==> exists i :: 0 <= i < |comps| && Sets(comps, i, name)
  {
    var ss := Settings(comps);
    CollectNames(ss, name);
    forall i | 0 <= i < |comps|
      ensures SetsIn(ss, i, name) <==> Sets(comps, i, name)
    {
    }
  }

  lemma {:induction false} CollectLastWins(ss: seq<Setting>, i: nat)
    requires i < |ss| && ss[i].Known?
    requires forall j :: i < j < |ss| ==> !SetsIn(ss, j, ss[i].name)
    ensures ss[i].name in Collect(ss).config.values && Collect(ss).config.values[ss[i].name] == ss[i].value
  {
    var n := |ss| - 1;
    if i < n {
      var init := ss[..n];
      assert init[i] == ss[i];
      forall j | i < j < n ensures !SetsIn(init, j, init[i].name) {
        assert init[j] == ss[j];
        assert !SetsIn(ss, j, ss[i].name);
      }
      CollectLastWins(init, i);
      assert !SetsIn(ss, n, ss[i].name);
    }
  }

  /** Each logger gets the level of the last component that sets it. */
  lemma ParseLastWins(comps: seq<string>, i: nat)
    requires i < |comps| && ComponentLevel(comps[i]).Some?
    requires forall j :: i < j < |comps| ==> !Sets(comps, j, Component(comps[i]).0)
    ensures var r := ParseComponents(comps);
      Component(comps[i]).0 in r.config.values
      && r.config.values[Component(comps[i]).0] == ComponentLevel(comps[i]).value
  {
    var ss := Settings(comps);
    forall j | i < j < |ss| ensures !SetsIn(ss, j, ss[i].name) {
      assert !Sets(comps, j, Component(comps[i]).0);
    }
    CollectLastWins(ss, i);
  }

  /** Component `comps[i]` has an unknown level and is reported as `u`. */
  predicate Reports(comps: seq<string>, i: int, u: (string, string))
    requires 0 <= i < |comps|
  {
    ComponentLevel(comps[i]).None? && u == (Component(comps[i]).0, Lower(Component(comps[i]).1))
  }

  predicate ReportsIn(ss: seq<Setting>, i: int, u: (string, string))
    requires 0 <= i < |ss|
  {
    ss[i].Unknown? && u == (ss[i].name, ss[i].level)
  }

  lemma {:induction false} CollectUnknown(ss: seq<Setting>, u: (string, string))
    ensures u in Collect(ss).unknown <==> exists i :: 0 <= i < |ss| && ReportsIn(ss, i, u)
  {
    if ss != [] {
      var n := |ss| - 1;
      var init := ss[..n];
      CollectUnknown(init, u);
      var prev := Collect(init).unknown;
      var s := ss[n];
      assert Collect(ss).unknown == if s.Known? then prev else prev + [(s.name, s.level)];
      if u in Collect(ss).unknown {
        if u in prev {
          var i :| 0 <= i < n && ReportsIn(init, i, u);
          assert init[i] == ss[i];
          assert ReportsIn(ss, i, u);
        } else {
          assert ReportsIn(ss, n, u);
        }
      }
      if exists i :: 0 <= i < |ss| && ReportsIn(ss, i, u) {
        var i :| 0 <= i < |ss| && ReportsIn(ss, i, u);
        if i < n {
          assert init[i] == ss[i];
          assert ReportsIn(init, i, u);
          assert u in prev;
        }
      }
    }
  }

  /** A component with an unknown level is reported, as (name, lower-cased level), and nothing else is. */
  lemma ParseUnknown(comps: seq<string>, u: (string, string))
    ensures u in ParseComponents(comps).unknown <==> exists i :: 0 <= i < |comps| && Reports(comps, i, u)
  {
    var ss := Settings(comps);
    CollectUnknown(ss, u);
    forall i | 0 <= i < |comps|
      ensures ReportsIn(ss, i, u) <==> Reports(comps, i, u)
    {
    }
  }

  /** Level names are case-insensitive: the `lower()` before the lookup changes nothing. */
  lemma LevelsIgnoreCase(a: string, b: string)
    requires Lower(a) == Lower(b)
    ensures LevelValue(Name(Lower(a))) == LevelValue(Name(a)) == LevelValue(Name(b))
  {
    UpperLower(a);
    UpperLower(b);
  }

  // ---------------------------------------------------------------------
  // Loggers, infect and setup_log_level
  // ---------------------------------------------------------------------

  datatype LoggerId = Root | Named(name: string)

  /** `logging.getLogger(name)`: the empty name and `"root"` are the root logger. */
  function GetLogger(name: string): (r: LoggerId)
    ensures r.Named? ==> r.name == name
  {
    if name == "" || name == "root" then Root else Named(name)
  }

  function Rank(id: LoggerId): nat
  {
    if id.Root? then 0 else |id.name| + 1
  }

  /** The logger a dotted name hangs from: the name up to its last dot, or the root. */
  function Parent(name: string): (r: LoggerId)
    ensures Rank(r) < |name| + 1
  {
    var k := RFind(name, '.');
    if k == -1 then Root else GetLogger(name[..k])
  }

  /** `getEffectiveLevel`: the first level set (non-zero) walking up to the root. */
  function Effective(levels: map<LoggerId, int>, id: LoggerId): (r: int)
    ensures id in levels && levels[id] != 0 ==> r == levels[id]
    decreases Rank(id)
  {
    var own := if id in levels then levels[id] else 0;
    if own != 0 then own
    else if id.Root? then 0
    else Effective(levels, Parent(id.name))
  }

  const Debug: int := 10
  const Critical: int := 50
  const Warning: int := 30

  /** The package whose logger `setup_log_level` adjusts by default. */
  const RootPackage: string := "mediatools"

  /** `LOGGING_CONFIG`: the root package at DEBUG. */
  const DefaultConfig: Dict<Level> := Dict([RootPackage], map[RootPackage := Value(Debug)])

  /** `max(min(level, CRITICAL), DEBUG)`. */
  function Clamp(level: int): (r: int)
    ensures Debug <= r <= Critical
    ensures Debug <= level <= Critical ==> r == level
    ensures level < Debug ==> r == Debug
    ensures level > Critical ==> r == Critical
  {
    if level > Critical then Critical else if level < Debug then Debug else level
  }

  /** The logger a configuration key names: `"*"` is the root. */
  function Target(key: string): LoggerId
  {
    if key == "*" then Root else GetLogger(key)
  }

  /** The levels after `setLevel` for the given keys, in order, stopping at an unknown level name. */
  function ApplyKeys(levels: map<LoggerId, int>, d: Dict<Level>, keys: seq<string>)
    : (r: (Option<LevelError>, map<LoggerId, int>))
    requires forall k :: k in keys ==> k in d.values
    decreases |keys|
  {
    if keys == [] then (None, levels)
    else
      var prev := ApplyKeys(levels, d, keys[..|keys| - 1]);
      if prev.0.Some? then prev
      else
        var k := keys[|keys| - 1];
        var v := LevelValue(d.values[k]);
        if v.None? then (Some(UnknownName(d.values[k])), prev.1)
        else (None, prev.1[Target(k) := v.value])
  }

  /** The configuration `infect` applies: the environment's spec when set, else the argument. */
  function Chosen(config: Dict<Level>, env: string): (r: Dict<Level>)
    requires config.Valid()
    ensures r.Valid()
  {
    if env != [] then
      ParseValid(Split(env, ','));
      var parsed := ParseLogStr(env).config;
      Dict(parsed.keys, map k | k in parsed.values :: Value(parsed.values[k]))
    else config
  }

  /** Applying a configuration fails exactly when some key's level name is unknown. */
  lemma {:induction false} ApplyFails(levels: map<LoggerId, int>, d: Dict<Level>, keys: seq<string>)
    requires forall k :: k in keys ==> k in d.values
    ensures ApplyKeys(levels, d, keys).0.None? <==> forall i :: 0 <= i < |keys| ==> LevelValue(d.values[keys[i]]).Some?
    decreases |keys|
  {
    if keys != [] {
      var n := |keys| - 1;
      var init := keys[..n];
      assert forall i :: 0 <= i < n ==> init[i] == keys[i];
      ApplyFails(levels, d, init);
    }
  }

  /** A logger no key names keeps its level. */
  lemma {:induction false} ApplyKeepsOthers(levels: map<LoggerId, int>, d: Dict<Level>, keys: seq<string>, id: LoggerId)
    requires forall k :: k in keys ==> k in d.values
    requires forall i :: 0 <= i < |keys| ==> Target(keys[i]) != id
    ensures var r := ApplyKeys(levels, d, keys).1;
      (id in r <==> id in levels) && (id in levels ==> r[id] == levels[id])
    decreases |keys|
  {
    if keys != [] {
      var n := |keys| - 1;
      var init := keys[..n];
      assert forall i :: 0 <= i < n ==> init[i] == keys[i];
      ApplyKeepsOthers(levels, d, init, id);
    }
  }

  /** On success, a key no later key shares a logger with leaves its level on that logger. */
  lemma {:induction false} ApplyLastWins(levels: map<LoggerId, int>, d: Dict<Level>, keys: seq<string>, i: nat)
    requires forall k :: k in keys ==> k in d.values
    requires i < |keys| && ApplyKeys(levels, d, keys).0.None?
    requires forall j :: i < j < |keys| ==> Target(keys[j]) != Target(keys[i])
    ensures var r := ApplyKeys(levels, d, keys).1;
      Target(keys[i]) in r && LevelValue(d.values[keys[i]]).Some?
      && r[Target(keys[i])] == LevelValue(d.values[keys[i]]).value
    decreases |keys|
  {
    var n := |keys| - 1;
    if i < n {
      var init := keys[..n];
      assert init[i] == keys[i];
      assert forall j :: i < j < n ==> init[j] == keys[j];
      ApplyLastWins(levels, d, init, i);
    }
  }

  /** Once a key fails, the keys after it are not looked at. */
  lemma {:induction false} ApplyStops(levels: map<LoggerId, int>, d: Dict<Level>, keys: seq<string>, i: nat)
    requires forall k :: k in keys ==> k in d.values
    requires i <= |keys| && ApplyKeys(levels, d, keys[..i]).0.Some?
    ensures ApplyKeys(levels, d, keys) == ApplyKeys(levels, d, keys[..i])
    decreases |keys| - i
  {
    if i < |keys| {
      assert keys[..i + 1][..i] == keys[..i];
      ApplyStops(levels, d, keys, i + 1);
    } else {
      assert keys[..i] == keys;
    }
  }

  /** One more key after a run of successes: it either fails or sets its logger. */
  lemma ApplyNext(levels: map<LoggerId, int>, d: Dict<Level>, keys: seq<string>, i: nat, cur: map<LoggerId, int>)
    requires forall k :: k in keys ==> k in d.values
    requires i < |keys| && ApplyKeys(levels, d, keys[..i]) == (None, cur)
    ensures var v := LevelValue(d.values[keys[i]]);
      ApplyKeys(levels, d, keys[..i + 1])
      == if v.None? then (Some(UnknownName(d.values[keys[i]])), cur) else (None, cur[Target(keys[i]) := v.value])
  {
    assert keys[..i + 1][..i] == keys[..i];
  }

  /** The process-wide logging state the module changes. */
  class Logging {
    /** `_is_infected`. */
    var infected: bool
    /** The levels set on loggers; an absent logger is at NOTSET. */
    var levels: map<LoggerId, int>
    /** How many handlers `infect` added to the root logger. */
    var handlers: nat

    /** A fresh interpreter: the root logger at WARNING, nothing infected. */
    constructor()
      ensures !infected && levels == map[Root := Warning] && handlers == 0
    {
      infected := false;
      levels := map[Root := Warning];
      handlers := 0;
    }

    /**
     * `infect`: once it has succeeded, later calls change nothing. The
     * handler is added before the levels are set, so a call that fails on
     * an unknown level name leaves a handler behind and `infected` unset.
     */
    method Infect(config: Dict<Level>, env: string) returns (err: Option<LevelError>)
      requires config.Valid()
      modifies this
      ensures old(infected) ==> err.None? && infected && levels == old(levels) && handlers == old(handlers)
      ensures !old(infected) ==>
        handlers == old(handlers) + 1
        && (err, levels) == ApplyKeys(old(levels), Chosen(config, env), Chosen(config, env).keys)
        && infected == err.None?
    {
      if infected {
        return None;
      }
      var cfg := Chosen(config, env);
      handlers := handlers + 1;
      for i := 0 to |cfg.keys|
        invariant handlers == old(handlers) + 1 && !infected
        invariant (None, levels) == ApplyKeys(old(levels), cfg, cfg.keys[..i])
      {
        ApplyNext(old(levels), cfg, cfg.keys, i, levels);
        var key := cfg.keys[i];
        var v := LevelValue(cfg.values[key]);
        if v.None? {
          ApplyStops(old(levels), cfg, cfg.keys, i + 1);
          return Some(UnknownName(cfg.values[key]));
        }
        levels := levels[Target(key) := v.value];
      }
      assert cfg.keys[..|cfg.keys|] == cfg.keys;
      infected := true;
      err := None;
    }

    /** `setup_log_level`: the effective level moved by ten per step of verbosity, clamped to DEBUG..CRITICAL. */
    method SetupLogLevel(quiet: int, verbose: int, root: Option<string>)
      modifies this
      ensures var id := GetLogger(if root.None? then RootPackage else root.value);
        levels == old(levels)[id := Clamp(Effective(old(levels), id) - 10 * verbose + 10 * quiet)]
      ensures infected == old(infected) && handlers == old(handlers)
    {
      var name := if root.None? then RootPackage else root.value;
      var id := GetLogger(name);
      var level := Effective(levels, id) - verbose * 10 + quiet * 10;
      level := Clamp(level);
      levels := levels[id := level];
    }
  }

  /**
   * After `setup_log_level` the logger's effective level is the clamped
   * value; with no verbosity change a level already in range stays.
   */
  lemma SetupEffective(levels: map<LoggerId, int>, id: LoggerId, quiet: int, verbose: int)
    ensures var v := Clamp(Effective(levels, id) - 10 * verbose + 10 * quiet);
      Effective(levels[id := v], id) == v && Debug <= v <= Critical
    ensures quiet == verbose && Debug <= Effective(levels, id) <= Critical ==>
      Clamp(Effective(levels, id) - 10 * verbose + 10 * quiet) == Effective(levels, id)
  {
  }

  /** More `--quiet` never lowers the resulting level, more `--verbose` never raises it. */
  lemma SetupMonotone(e: int, q1: int, q2: int, v1: int, v2: int)
    requires q1 <= q2 && v2 <= v1
    ensures Clamp(e - 10 * v1 + 10 * q1) <= Clamp(e - 10 * v2 + 10 * q2)
  {
  }
}
