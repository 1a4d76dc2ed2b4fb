/**
 * ExecutionEngine: activates an installed module at most once per
 * identifier, according to the type its manifest declares.
 *
 * The package directory, its `module.json` and the imports of the files it
 * names are read through `installed`: a map from package directory name to
 * the manifest found there, with the overlay configuration and the service
 * class already resolved. What activation does to the outside world is
 * recorded as appends to the sequences of the engine's state.
 */
module Engine {
  import opened Bytes
  import opened Identifiers
  import opened Modules

  datatype Arg = ArgStr(s: string) | ArgInt(i: int)
  type Kwargs = map<string, Arg>

  /** One entry of an overlay's `walkers`: strategy class, target peer count, init arguments. */
  datatype WalkerDecl = WalkerDecl(strategy: string, peers: int, init: Kwargs)

  /** One entry of an overlay's `on_start`: a method name and its positional arguments. */
  datatype StartCall = StartCall(methodName: string, args: seq<Arg>)

  /** One entry of `config['overlays']`. */
  datatype OverlayDecl = OverlayDecl(overlayClass: string, initialize: Kwargs, walkers: seq<WalkerDecl>, onStart: seq<StartCall>)

  /** A parsed `module.json`, by its declared `type`. */
  datatype Manifest =
    | Executable(executableFile: Bytes)
    | Overlay(overlayFile: Bytes, overlays: seq<OverlayDecl>)
    | Service(serviceFile: Bytes, serviceClass: Bytes, serviceOptions: Kwargs)
    | Unrecognized(packageType: string)

  datatype OverlayInstance = OverlayInstance(overlayClass: string, initialize: Kwargs)

  /** A discovery strategy bound to the overlay at position `overlay` of the overlay list. */
  datatype Strategy = Strategy(strategyClass: string, overlay: nat, init: Kwargs)

  /** A callback scheduled to run when the reactor starts, on the overlay at position `overlay`. */
  datatype Callback = Callback(overlay: nat, methodName: string, args: seq<Arg>)

  datatype ServiceInstance = ServiceInstance(serviceClass: Bytes, options: Kwargs)

  datatype EngineState = EngineState(
    imported: seq<Identifier>,
    /** The log of `import_module` calls for executable entry points, in call order (a repeated path runs nothing again). */
    executed: seq<Bytes>,
    overlays: seq<OverlayInstance>,
    strategies: seq<(Strategy, int)>,
    scheduled: seq<Callback>,
    services: seq<ServiceInstance>)

  function Instances(ds: seq<OverlayDecl>): (r: seq<OverlayInstance>)
    ensures |r| == |ds|
  {
    if ds == [] then []
    else Instances(ds[..|ds| - 1]) + [OverlayInstance(ds[|ds| - 1].overlayClass, ds[|ds| - 1].initialize)]
  }

  function WalkerBindings(ws: seq<WalkerDecl>, overlay: nat): seq<(Strategy, int)> {
    if ws == [] then []
    else WalkerBindings(ws[..|ws| - 1], overlay)
           + [(Strategy(ws[|ws| - 1].strategy, overlay, ws[|ws| - 1].init), ws[|ws| - 1].peers)]
  }

  /** Strategy bindings of the overlays `ds`, the first of which lands at position `base`. */
  function Bindings(ds: seq<OverlayDecl>, base: nat): seq<(Strategy, int)> {
    if ds == [] then []
    else Bindings(ds[..|ds| - 1], base) + WalkerBindings(ds[|ds| - 1].walkers, base + |ds| - 1)
  }

  function StartCallbacks(cs: seq<StartCall>, overlay: nat): seq<Callback> {
    if cs == [] then []
    else StartCallbacks(cs[..|cs| - 1], overlay) + [Callback(overlay, cs[|cs| - 1].methodName, cs[|cs| - 1].args)]
  }

  function Callbacks(ds: seq<OverlayDecl>, base: nat): seq<Callback> {
    if ds == [] then []
    else Callbacks(ds[..|ds| - 1], base) + StartCallbacks(ds[|ds| - 1].onStart, base + |ds| - 1)
  }

  /** The Python import path of an executable entry: name + "." + file. */
  function EntryModule(name: Bytes, file: Bytes): Bytes {
    name + [DOT] + file
  }

  /** `run_module` on the engine state. */
  function Run(s: EngineState, m: Module, installed: map<Bytes, Manifest>): EngineState {
    if m.name !in installed || m.id in s.imported then s
    else
      match installed[m.name]
      case Executable(file) =>
        s.(executed := s.executed + [EntryModule(m.name, file)], imported := s.imported + [m.id])
      case Overlay(_, ds) =>
        s.(overlays := s.overlays + Instances(ds),
           strategies := s.strategies + Bindings(ds, |s.overlays|),
           scheduled := s.scheduled + Callbacks(ds, |s.overlays|),
           imported := s.imported + [m.id])
      case Service(_, cls, options) =>
        s.(services := s.services + [ServiceInstance(cls, options)], imported := s.imported + [m.id])
      case Unrecognized(_) => s
  }

  ghost predicate NoDuplicates(ids: seq<Identifier>) {
    forall i, j | 0 <= i < j < |ids| :: ids[i] != ids[j]
  }

  /** Running a module a second time activates nothing more. */
  lemma RunIsOnce(s: EngineState, m: Module, installed: map<Bytes, Manifest>)
    ensures Run(Run(s, m, installed), m, installed) == Run(s, m, installed)
  {
  }

  /** An identifier already imported is never activated again, whatever the module's name or manifest. */
  lemma ImportedIsNoOp(s: EngineState, m: Module, installed: map<Bytes, Manifest>)
    requires m.id in s.imported
    ensures Run(s, m, installed) == s
  {
  }

  /** Nothing happens without a manifest, or with a type other than executable, overlay or service. */
  lemma NoManifestOrUnknownTypeIsNoOp(s: EngineState, m: Module, installed: map<Bytes, Manifest>)
    requires m.name !in installed || installed[m.name].Unrecognized?
    ensures Run(s, m, installed) == s
  {
  }

  /** The imported list only grows, by at most this module's id, and never holds a duplicate. */
  lemma RunKeepsImportsDistinct(s: EngineState, m: Module, installed: map<Bytes, Manifest>)
    requires NoDuplicates(s.imported)
    ensures var s' := Run(s, m, installed);
            && NoDuplicates(s'.imported)
            && (s'.imported == s.imported || s'.imported == s.imported + [m.id])
            && (s'.imported != s.imported <==> m.id !in s.imported && m.name in installed && !installed[m.name].Unrecognized?)
  {
  }

  function WalkerCount(ds: seq<OverlayDecl>): nat {
    if ds == [] then 0 else WalkerCount(ds[..|ds| - 1]) + |ds[|ds| - 1].walkers|
  }

  function StartCount(ds: seq<OverlayDecl>): nat {
    if ds == [] then 0 else StartCount(ds[..|ds| - 1]) + |ds[|ds| - 1].onStart|
  }

  lemma {:induction false} WalkerBindingsShape(ws: seq<WalkerDecl>, overlay: nat)
    ensures |WalkerBindings(ws, overlay)| == |ws|
    ensures forall k | 0 <= k < |ws| ::
              WalkerBindings(ws, overlay)[k] == (Strategy(ws[k].strategy, overlay, ws[k].init), ws[k].peers)
  {
    if ws != [] {
      WalkerBindingsShape(ws[..|ws| - 1], overlay);
    }
  }

  lemma {:induction false} StartCallbacksShape(cs: seq<StartCall>, overlay: nat)
    ensures |StartCallbacks(cs, overlay)| == |cs|
    ensures forall k | 0 <= k < |cs| :: StartCallbacks(cs, overlay)[k] == Callback(overlay, cs[k].methodName, cs[k].args)
  {
    if cs != [] {
      StartCallbacksShape(cs[..|cs| - 1], overlay);
    }
  }

  /**
   * Activating an overlay package adds one overlay instance per declared
   * overlay, one strategy binding per walker and one scheduled callback per
   * `on_start` entry, each bound to an overlay of this package.
   */
  lemma {:induction false} OverlayActivationCounts(ds: seq<OverlayDecl>, base: nat)
    ensures |Instances(ds)| == |ds|
    ensures |Bindings(ds, base)| == WalkerCount(ds)
    ensures |Callbacks(ds, base)| == StartCount(ds)
    ensures forall b | b in Bindings(ds, base) :: base <= b.0.overlay < base + |ds|
    ensures forall c | c in Callbacks(ds, base) :: base <= c.overlay < base + |ds|
  {
    if ds != [] {
      var init, last := ds[..|ds| - 1], ds[|ds| - 1];
      OverlayActivationCounts(init, base);
      WalkerBindingsShape(last.walkers, base + |ds| - 1);
      StartCallbacksShape(last.onStart, base + |ds| - 1);
      forall b | b in WalkerBindings(last.walkers, base + |ds| - 1)
        ensures b.0.overlay == base + |ds| - 1
      {
        var k :| 0 <= k < |last.walkers| && WalkerBindings(last.walkers, base + |ds| - 1)[k] == b;
      }
      forall c | c in StartCallbacks(last.onStart, base + |ds| - 1)
        ensures c.overlay == base + |ds| - 1
      {
        var k :| 0 <= k < |last.onStart| && StartCallbacks(last.onStart, base + |ds| - 1)[k] == c;
      }
    }
  }

  /** Activating one more declared overlay extends each effect list by that overlay's share. */
  lemma ActivationStep(ds: seq<OverlayDecl>, i: nat, base: nat)
    requires i < |ds|
    ensures Instances(ds[..i + 1]) == Instances(ds[..i]) + [OverlayInstance(ds[i].overlayClass, ds[i].initialize)]
    ensures Bindings(ds[..i + 1], base) == Bindings(ds[..i], base) + WalkerBindings(ds[i].walkers, base + i)
    ensures Callbacks(ds[..i + 1], base) == Callbacks(ds[..i], base) + StartCallbacks(ds[i].onStart, base + i)
  {
    assert ds[..i + 1][..i] == ds[..i];
  }

  lemma AppendAssoc<T>(a: seq<T>, b: seq<T>, c: seq<T>)
    ensures (a + b) + c == a + (b + c)
  {
  }

  class ExecutionEngine {
    /** `imported_modules` */
    var importedModules: seq<Identifier>
    /**
     * The log of `import_module` calls for executable packages, in call
     * order. Python's module cache runs a repeated path only once, so an
     * entry whose path is already in the log executed nothing.
     */
    var executed: seq<Bytes>
    /** `ipv8.overlays` */
    var overlays: seq<OverlayInstance>
    /** `ipv8.strategies` */
    var strategies: seq<(Strategy, int)>
    /** Callbacks handed to `reactor.callWhenRunning`. */
    var scheduled: seq<Callback>
    /** Services added to the master service. */
    var services: seq<ServiceInstance>

    function State(): EngineState
      reads this
    {
      EngineState(importedModules, executed, overlays, strategies, scheduled, services)
    }

    ghost predicate Valid()
      reads this
    {
      NoDuplicates(importedModules)
    }

    constructor ()
      ensures Valid() && State() == EngineState([], [], [], [], [], [])
    {
      importedModules, executed, overlays, strategies, scheduled, services := [], [], [], [], [], [];
    }

    method RunModule(m: Module, installed: map<Bytes, Manifest>)
      requires Valid()
      modifies this
      ensures Valid()
      ensures State() == Run(old(State()), m, installed)
    {
      if m.name !in installed {
        return;
      }
      match installed[m.name]
      case Executable(file) =>
        if m.id !in importedModules {
          executed := executed + [EntryModule(m.name, file)];
          importedModules := importedModules + [m.id];
        }
      case Overlay(_, ds) =>
        if m.id !in importedModules {
          ActivateOverlays(ds);
          importedModules := importedModules + [m.id];
        }
      case Service(_, cls, options) =>
        if m.id !in importedModules {
          services := services + [ServiceInstance(cls, options)];
          importedModules := importedModules + [m.id];
        }
      case Unrecognized(_) =>
    }

    /** The loop over `config['overlays']` of an overlay package. */
    method ActivateOverlays(ds: seq<OverlayDecl>)
      modifies this
      ensures overlays == old(overlays) + Instances(ds)
      ensures strategies == old(strategies) + Bindings(ds, |old(overlays)|)
      ensures scheduled == old(scheduled) + Callbacks(ds, |old(overlays)|)
      ensures importedModules == old(importedModules) && executed == old(executed) && services == old(services)
    {
      var base := |overlays|;
      var i := 0;
      while i < |ds|
        invariant 0 <= i <= |ds|
        invariant overlays == old(overlays) + Instances(ds[..i])
        invariant strategies == old(strategies) + Bindings(ds[..i], base)
        invariant scheduled == old(scheduled) + Callbacks(ds[..i], base)
        invariant importedModules == old(importedModules) && executed == old(executed) && services == old(services)
      {
        var d := ds[i];
        var index := |overlays|;
        ActivationStep(ds, i, base);
        AppendAssoc(old(overlays), Instances(ds[..i]), [OverlayInstance(d.overlayClass, d.initialize)]);
        AppendAssoc(old(strategies), Bindings(ds[..i], base), WalkerBindings(d.walkers, base + i));
        AppendAssoc(old(scheduled), Callbacks(ds[..i], base), StartCallbacks(d.onStart, base + i));
        overlays := overlays + [OverlayInstance(d.overlayClass, d.initialize)];
        BindWalkers(d.walkers, index);
        ScheduleStartCalls(d.onStart, index);
        i := i + 1;
      }
      assert ds[..i] == ds;
    }

    /** The loop over one overlay's `walkers`. */
    method BindWalkers(ws: seq<WalkerDecl>, index: nat)
      modifies this
      ensures strategies == old(strategies) + WalkerBindings(ws, index)
      ensures overlays == old(overlays) && scheduled == old(scheduled)
      ensures importedModules == old(importedModules) && executed == old(executed) && services == old(services)
    {
      var k := 0;
      while k < |ws|
        invariant 0 <= k <= |ws|
        invariant strategies == old(strategies) + WalkerBindings(ws[..k], index)
        invariant overlays == old(overlays) && scheduled == old(scheduled)
        invariant importedModules == old(importedModules) && executed == old(executed) && services == old(services)
      {
        var w := ws[k];
        strategies := strategies + [(Strategy(w.strategy, index, w.init), w.peers)];
        assert ws[..k + 1][..k] == ws[..k];
        k := k + 1;
      }
      assert ws[..k] == ws;
    }

    /** The loop over one overlay's `on_start` entries. */
    method ScheduleStartCalls(cs: seq<StartCall>, index: nat)
      modifies this
      ensures scheduled == old(scheduled) + StartCallbacks(cs, index)
      ensures overlays == old(overlays) && strategies == old(strategies)
      ensures importedModules == old(importedModules) && executed == old(executed) && services == old(services)
    {
      var c := 0;
      while c < |cs|
        invariant 0 <= c <= |cs|
        invariant scheduled == old(scheduled) + StartCallbacks(cs[..c], index)
        invariant overlays == old(overlays) && strategies == old(strategies)
        invariant importedModules == old(importedModules) && executed == old(executed) && services == old(services)
      {
        var call := cs[c];
        scheduled := scheduled + [Callback(index, call.methodName, call.args)];
        assert cs[..c + 1][..c] == cs[..c];
        c := c + 1;
      }
      assert cs[..c] == cs;
    }
  }
}
