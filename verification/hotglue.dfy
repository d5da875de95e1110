/**
 * The registries of `mediatools/lib/hotglue.py`: hooks fired by event
 * name, objects registered once per name, plugins registered once per
 * name within each interface, and a loader that imports a registered
 * module on first use and remembers the outcome.
 */
module HotGlue {
  import opened Common

  /** A registered callable, known by its identity. */
  datatype Hook = Hook(id: nat)

  /** Whatever a registry stores: an object, an interface, a module. */
  datatype Obj = Obj(id: nat)

  /** The positional and keyword arguments of one `fire`. */
  datatype Args = Args(positional: seq<string>, keyword: map<string, string>)

  // ---------------------------------------------------------------------
  // HookHub
  // ---------------------------------------------------------------------

  /** `_get_hooks`: the hooks under `name`, or none. */
  function HooksOf(hooks: map<string, seq<Hook>>, name: string): (r: seq<Hook>)
    ensures name !in hooks ==> r == []
  {
    if name in hooks then hooks[name] else []
  }

  /** The table after `register_hook(name, h)`. */
  function Registered(hooks: map<string, seq<Hook>>, name: string, h: Hook): (r: map<string, seq<Hook>>)
    ensures r.Keys == hooks.Keys + {name}
    ensures HooksOf(r, name) == HooksOf(hooks, name) + [h]
    ensures forall n :: n != name ==> HooksOf(r, n) == HooksOf(hooks, n)
  {
    hooks[name := HooksOf(hooks, name) + [h]]
  }

  /** The calls `fire(name, *args, **kwargs)` makes: every hook of `name` in order, each with the same arguments. */
  function Firing(hooks: map<string, seq<Hook>>, name: string, args: Args): (r: seq<(Hook, Args)>)
    ensures |r| == |HooksOf(hooks, name)|
    ensures forall i :: 0 <= i < |r| ==> r[i] == (HooksOf(hooks, name)[i], args)
  {
    seq(|HooksOf(hooks, name)|, i requires 0 <= i < |HooksOf(hooks, name)| => (HooksOf(hooks, name)[i], args))
  }

  /**
   * Registering a hook adds exactly one call, at the end, to the firing of
   * its name, and changes the firing of no other name.
   */
  lemma RegisterThenFire(hooks: map<string, seq<Hook>>, name: string, h: Hook, args: Args, other: string)
    requires other != name
    ensures Firing(Registered(hooks, name, h), name, args) == Firing(hooks, name, args) + [(h, args)]
    ensures Firing(Registered(hooks, name, h), other, args) == Firing(hooks, other, args)
  {
  }

  /** Hooks registered in turn are fired in registration order. */
  lemma {:induction false} RegisterAllThenFire(hooks: map<string, seq<Hook>>, name: string, hs: seq<Hook>, args: Args)
    requires name !in hooks
    ensures Firing(RegisterAll(hooks, name, hs), name, args) == seq(|hs|, i requires 0 <= i < |hs| => (hs[i], args))
  {
    RegisterAllHooks(hooks, name, hs);
  }

  /** `register_hook(name, h)` for each of `hs`, in order. */
  function RegisterAll(hooks: map<string, seq<Hook>>, name: string, hs: seq<Hook>): map<string, seq<Hook>>
  {
    if hs == [] then hooks else Registered(RegisterAll(hooks, name, hs[..|hs| - 1]), name, hs[|hs| - 1])
  }

  lemma {:induction false} RegisterAllHooks(hooks: map<string, seq<Hook>>, name: string, hs: seq<Hook>)
    ensures HooksOf(RegisterAll(hooks, name, hs), name) == HooksOf(hooks, name) + hs
  {
    if hs != [] {
      RegisterAllHooks(hooks, name, hs[..|hs| - 1]);
      assert hs[..|hs| - 1] + [hs[|hs| - 1]] == hs;
    }
  }

  class HookHub {
    var hooks: map<string, seq<Hook>>

    constructor()
      ensures hooks == map[]
    {
      hooks := map[];
    }

    /** `register_hook`. */
    method RegisterHook(name: string, h: Hook)
      modifies this
      ensures hooks == Registered(old(hooks), name, h)
    {
      var current := HooksOf(hooks, name);
      hooks := hooks[name := current + [h]];
    }

    /** `hook(name)` applied to `fn`: registers it, and the decorated name is bound to None. */
    method Decorate(name: string, fn: Hook) returns (bound: Option<Hook>)
      modifies this
      ensures bound == None
      ensures hooks == Registered(old(hooks), name, fn)
    {
      RegisterHook(name, fn);
      bound := None;
    }

    /** `fire`: the calls made, in order. */
    method Fire(name: string, args: Args) returns (calls: seq<(Hook, Args)>)
      ensures calls == Firing(hooks, name, args)
    {
      var fns := HooksOf(hooks, name);
      calls := [];
      for i := 0 to |fns|
        invariant calls == Firing(hooks, name, args)[..i]
      {
        calls := calls + [(fns[i], args)];
      }
    }
  }

  // ---------------------------------------------------------------------
  // IfacesHub and PluginHub
  // ---------------------------------------------------------------------

  /** The exception raised on a name registered twice. */
  datatype Duplicate = Duplicate(name: string)

  /** `IfacesHub.register`: a new name is stored, a known name raises and keeps the original. */
  function RegisterName(reg: map<string, Obj>, name: string, obj: Obj): (r: Result<map<string, Obj>, Duplicate>)
    ensures r.Err? <==> name in reg
    ensures r.Err? ==> r.error == Duplicate(name)
    ensures r.Ok? ==>
      r.value.Keys == reg.Keys + {name} && r.value[name] == obj
      && forall n :: n in reg ==> r.value[n] == reg[n]
  {
    if name in reg then Err(Duplicate(name)) else Ok(reg[name := obj])
  }

  /** A registration that is refused leaves the first object in place. */
  lemma SecondRegistrationRefused(reg: map<string, Obj>, name: string, a: Obj, b: Obj)
    requires name !in reg
    ensures RegisterName(reg, name, a).Ok?
    ensures RegisterName(RegisterName(reg, name, a).value, name, b) == Err(Duplicate(name))
    ensures RegisterName(reg, name, a).value[name] == a
  {
  }

  class IfacesHub {
    var reg: map<string, Obj>

    constructor()
      ensures reg == map[]
    {
      reg := map[];
    }

    method Register(name: string, obj: Obj) returns (err: Option<Duplicate>)
      modifies this
      ensures var r := RegisterName(old(reg), name, obj);
        (r.Ok? ==> err.None? && reg == r.value) && (r.Err? ==> err == Some(r.error) && reg == old(reg))
    {
      if name in reg {
        return Some(Duplicate(name));
      }
      reg := reg[name := obj];
      err := None;
    }
  }

  /**
   * `PluginHub.register`: each interface has its own table, created on
   * first use; the name must be new within that interface only.
   */
  function RegisterPlugin(ifaces: map<Obj, map<string, Obj>>, name: string, iface: Obj, obj: Obj)
    : (r: Result<map<Obj, map<string, Obj>>, Duplicate>)
    ensures r.Err? <==> iface in ifaces && name in ifaces[iface]
    ensures r.Ok? ==>
      r.value.Keys == ifaces.Keys + {iface}
      && r.value[iface] == (if iface in ifaces then ifaces[iface] else map[])[name := obj]
      && forall i :: i in ifaces && i != iface ==> r.value[i] == ifaces[i]
  {
    var table := if iface in ifaces then ifaces[iface] else map[];
    match RegisterName(table, name, obj)
    case Err(e) => Err(e)
    case Ok(t) => Ok(ifaces[iface := t])
  }

  /** The same name may go under two interfaces, but not twice under one. */
  lemma PluginNamespaces(ifaces: map<Obj, map<string, Obj>>, name: string, i1: Obj, i2: Obj, a: Obj, b: Obj)
    requires i1 != i2 && i1 !in ifaces && i2 !in ifaces
    ensures var r1 := RegisterPlugin(ifaces, name, i1, a);
      r1.Ok? && RegisterPlugin(r1.value, name, i2, b).Ok?
      && RegisterPlugin(r1.value, name, i1, b) == Err(Duplicate(name))
  {
  }

  class PluginHub {
    var ifaces: map<Obj, map<string, Obj>>

    constructor()
      ensures ifaces == map[]
    {
      ifaces := map[];
    }

    method Register(name: string, iface: Obj, obj: Obj) returns (err: Option<Duplicate>)
      modifies this
      ensures var r := RegisterPlugin(old(ifaces), name, iface, obj);
        (r.Ok? ==> err.None? && ifaces == r.value) && (r.Err? ==> err == Some(r.error) && ifaces == old(ifaces))
    {
      if iface !in ifaces {
        ifaces := ifaces[iface := map[]];
      }
      var table := ifaces[iface];
      if name in table {
        return Some(Duplicate(name));
      }
      ifaces := ifaces[iface := table[name := obj]];
      err := None;
    }
  }

  // ---------------------------------------------------------------------
  // HotLoader
  // ---------------------------------------------------------------------

  /** An entry of `HotLoader.reg`: a module string, the imported module, or None after a failed import. */
  datatype Entry = Pending(modstr: string) | Loaded(mod: Obj) | Failed

  datatype LoadError = Unregistered(name: string) | ImportFailed(modstr: string) | PreviouslyFailed(name: string)

  /**
   * `HotLoader.get` with `import` as an oracle: the result, the new table,
   * and whether an import was attempted.
   */
  function LoadStep(reg: map<string, Entry>, name: string, importer: string -> Option<Obj>)
    : (r: (Result<Obj, LoadError>, map<string, Entry>, bool))
    ensures name !in reg ==> r == (Err(Unregistered(name)), reg, false)
    ensures r.2 <==> name in reg && reg[name].Pending?
    ensures r.1.Keys == reg.Keys && forall n :: n in reg && n != name ==> r.1[n] == reg[n]
    ensures r.0.Ok? ==> name in reg && r.1[name] == Loaded(r.0.value)
    ensures name in reg && r.1[name].Loaded? ==> r.0 == Ok(r.1[name].mod)
  {
    if name !in reg then (Err(Unregistered(name)), reg, false)
    else match reg[name]
      case Pending(modstr) =>
        (match importer(modstr)
         case None => (Err(ImportFailed(modstr)), reg[name := Failed], true)
         case Some(m) => (Ok(m), reg[name := Loaded(m)], true))
      case Failed => (Err(PreviouslyFailed(name)), reg, false)
      case Loaded(m) => (Ok(m), reg, false)
  }

  /** After a successful `get`, later ones return the same module without importing again. */
  lemma GetCaches(reg: map<string, Entry>, name: string, importer: string -> Option<Obj>, importer2: string -> Option<Obj>)
    requires LoadStep(reg, name, importer).0.Ok?
    ensures var first := LoadStep(reg, name, importer);
      LoadStep(first.1, name, importer2) == (first.0, first.1, false)
  {
  }

  /** After a failed import, every later `get` raises without retrying. */
  lemma GetFailureSticks(reg: map<string, Entry>, name: string, importer: string -> Option<Obj>, importer2: string -> Option<Obj>)
    requires name in reg && reg[name].Pending? && importer(reg[name].modstr).None?
    ensures var first := LoadStep(reg, name, importer);
      first.0 == Err(ImportFailed(reg[name].modstr))
      && LoadStep(first.1, name, importer2) == (Err(PreviouslyFailed(name)), first.1, false)
  {
  }

  class HotLoader {
    var reg: map<string, Entry>

    constructor()
      ensures reg == map[]
    {
      reg := map[];
    }

    /** `register`: the name now refers to the module string, whatever it held before. */
    method Register(name: string, modstr: string)
      modifies this
      ensures reg == old(reg)[name := Pending(modstr)]
    {
      reg := reg[name := Pending(modstr)];
    }

    method Get(name: string, importer: string -> Option<Obj>) returns (r: Result<Obj, LoadError>)
      modifies this
      ensures (r, reg) == (var g := LoadStep(old(reg), name, importer); (g.0, g.1))
    {
      if name !in reg {
        return Err(Unregistered(name));
      }
      match reg[name]
      case Pending(modstr) =>
        var m := importer(modstr);
        if m.None? {
          reg := reg[name := Failed];
          return Err(ImportFailed(modstr));
        }
        reg := reg[name := Loaded(m.value)];
        return Ok(m.value);
      case Failed =>
        return Err(PreviouslyFailed(name));
      case Loaded(m) =>
        return Ok(m);
    }
  }
}
