/**
 Loading `.bzl` modules: a cache of published modules and of failures, and an active chain for
 cycle detection. The reference evaluates every import again, with no tables at all.
 */
module ModuleLoader {
  import opened Optional
  import opened Sequences
  import opened Digraph

  datatype Reason = NotLocal | Broken(path: string) | NoExport(path: string, name: string) | Cyclic

  datatype Symbol = Supported(name: string) | Defined(path: string, name: string) | Opaque(reason: Reason)

  type Namespace = map<string, Symbol>

  /** What a module body does: import a name, define one, consume one, or fail. */
  datatype Step = Load(local: string, target: Option<string>, exported: string)
                | Define(name: string) | Use(name: string) | Fail

  /** The files that can be read, and the names the converter supplies. */
  datatype World = World(files: map<string, seq<Step>>, bindings: set<string>)

  datatype Outcome = Loaded(exports: Namespace) | Failed | Cycle

  function Initial(w: World): Namespace {
    map n | n in w.bindings :: Supported(n)
  }

  // ----- Evaluation without tables -----

  function Evaluate(w: World, path: string, active: set<string>): Outcome
    decreases |w.files.Keys - active|, 0, 0
  {
    if path in active then Cycle
    else if path !in w.files then Failed
    else
      Shrinks(w.files.Keys, active, path);
      Execute(w, path, w.files[path], Initial(w), active + {path})
  }

  function Execute(w: World, path: string, steps: seq<Step>, names: Namespace, active: set<string>): Outcome
    decreases |w.files.Keys - active|, 1, |steps|
  {
    if steps == [] then Loaded(names)
    else match steps[0]
      case Define(n) => Execute(w, path, steps[1..], names[n := Defined(path, n)], active)
      case Use(n) => if n !in names || names[n].Opaque? then Failed else Execute(w, path, steps[1..], names, active)
      case Fail => Failed
      case Load(local, target, exported) =>
        if exported in w.bindings then Execute(w, path, steps[1..], names[local := Supported(exported)], active)
        else if target.None? then Execute(w, path, steps[1..], names[local := Opaque(NotLocal)], active)
        else
          var r := Evaluate(w, target.value, active);
          if r.Cycle? then Cycle
          else Execute(w, path, steps[1..], names[local := Imported(r, target.value, exported)], active)
  }

  /** What an import binds: the export, or an opaque stand-in that remembers why. */
  function Imported(r: Outcome, path: string, exported: string): Symbol {
    match r
    case Loaded(exports) => if exported in exports then exports[exported] else Opaque(NoExport(path, exported))
    case Failed => Opaque(Broken(path))
    case Cycle => Opaque(Cyclic)
  }

  /** The answer to a request from outside: a supplied name, a stand-in, or an export evaluated afresh. */
  function Answer(w: World, target: Option<string>, name: string): Symbol {
    if name in w.bindings then Supported(name)
    else if target.None? then Opaque(NotLocal)
    else Imported(Evaluate(w, target.value, {}), target.value, name)
  }

  // ----- Who loads whom -----

  function Targets(steps: seq<Step>): (r: seq<string>)
    ensures forall x :: x in r <==> exists i :: 0 <= i < |steps| && steps[i].Load? && steps[i].target == Some(x)
  {
    if steps == [] then []
    else
      var rest := Targets(steps[1..]);
      assert forall i :: 0 < i < |steps| ==> steps[i] == steps[1..][i - 1];
      if steps[0].Load? && steps[0].target.Some? then [steps[0].target.value] + rest else rest
  }

  /** The load statements written in each file, whether evaluation gets to them or not. */
  function LoadGraph(w: World): Graph {
    map p | p in w.files :: Targets(w.files[p])
  }

  ghost predicate StepsOf(w: World, path: string, steps: seq<Step>) {
    path in w.files && forall x :: x in Targets(steps) ==> x in Targets(w.files[path])
  }

  lemma StepTarget(w: World, path: string, steps: seq<Step>)
    requires StepsOf(w, path, steps) && steps != []
    ensures StepsOf(w, path, steps[1..])
    ensures steps[0].Load? && steps[0].target.Some? ==> Edge(LoadGraph(w), path, steps[0].target.value)
  {
    if steps[0].Load? && steps[0].target.Some? {
      assert steps[0].target.value in Targets(steps);
    }
    forall x | x in Targets(steps[1..]) ensures x in Targets(steps) {
      var i :| 0 <= i < |steps[1..]| && steps[1..][i].Load? && steps[1..][i].target == Some(x);
      assert steps[i + 1].target == Some(x);
    }
  }

  /** A cycle error comes from an active module below `path`, or from a cycle of load statements. */
  ghost predicate CycleBelow(w: World, path: string, active: set<string>) {
    (exists a :: a in active && Reach(LoadGraph(w), path, a)) || CycleReachable(LoadGraph(w), path)
  }

  lemma {:induction false} CycleSource(w: World, path: string, active: set<string>)
    requires Evaluate(w, path, active).Cycle?
    ensures CycleBelow(w, path, active)
    decreases |w.files.Keys - active|, 0, 0
  {
    if path in active {
      ReachSelf(LoadGraph(w), path);
    } else {
      Shrinks(w.files.Keys, active, path);
      CycleSourceSteps(w, path, w.files[path], Initial(w), active);
    }
  }

  lemma {:induction false} CycleSourceSteps(w: World, path: string, steps: seq<Step>, names: Namespace,
                                            active: set<string>)
    requires StepsOf(w, path, steps) && path !in active && Execute(w, path, steps, names, active + {path}).Cycle?
    ensures CycleBelow(w, path, active)
    decreases |w.files.Keys - (active + {path})|, 1, |steps|
  {
    hide CycleBelow, StepsOf, LoadGraph;
    StepTarget(w, path, steps);
    match steps[0]
    case Define(n) => CycleSourceSteps(w, path, steps[1..], names[n := Defined(path, n)], active);
    case Use(n) => CycleSourceSteps(w, path, steps[1..], names, active);
    case Load(local, target, exported) =>
      if exported in w.bindings {
        CycleSourceSteps(w, path, steps[1..], names[local := Supported(exported)], active);
      } else if target.None? {
        CycleSourceSteps(w, path, steps[1..], names[local := Opaque(NotLocal)], active);
      } else if Evaluate(w, target.value, active + {path}).Cycle? {
        CycleSource(w, target.value, active + {path});
        CycleAbove(w, path, target.value, active);
      } else {
        var r := Evaluate(w, target.value, active + {path});
        CycleSourceSteps(w, path, steps[1..], names[local := Imported(r, target.value, exported)], active);
      }
  }

  lemma CycleAbove(w: World, path: string, target: string, active: set<string>)
    requires Edge(LoadGraph(w), path, target) && CycleBelow(w, target, active + {path})
    ensures CycleBelow(w, path, active)
  {
    hide LoadGraph, Reach;
    var g := LoadGraph(w);
    if a :| a in active + {path} && Reach(g, target, a) {
      ReachStep(g, path, target, a);
      if a == path {
        assert Leads(g, path, path);
        ReachSelf(g, path);
      }
    } else {
      var c :| Reach(g, target, c) && Leads(g, c, c);
      ReachStep(g, path, target, c);
    }
  }

  /** A reported load cycle is a cycle of load statements that the file can reach. */
  lemma CycleIsReal(w: World, path: string)
    requires Evaluate(w, path, {}).Cycle?
    ensures CycleReachable(LoadGraph(w), path)
  {
    CycleSource(w, path, {});
  }

  // ----- How the active set matters -----

  /** An outcome other than a cycle does not change when fewer modules are active. */
  lemma {:induction false} FewerActive(w: World, path: string, active: set<string>, fewer: set<string>)
    requires fewer <= active && !Evaluate(w, path, active).Cycle?
    ensures Evaluate(w, path, fewer) == Evaluate(w, path, active)
    decreases |w.files.Keys - active|, 0, 0
  {
    if path in w.files {
      Shrinks(w.files.Keys, active, path);
      FewerActiveSteps(w, path, w.files[path], Initial(w), active + {path}, fewer + {path});
    }
  }

  lemma {:induction false} FewerActiveSteps(w: World, path: string, steps: seq<Step>, names: Namespace,
                                            active: set<string>, fewer: set<string>)
    requires fewer <= active && !Execute(w, path, steps, names, active).Cycle?
    ensures Execute(w, path, steps, names, fewer) == Execute(w, path, steps, names, active)
    decreases |w.files.Keys - active|, 1, |steps|
  {
    if steps != [] {
      match steps[0]
      case Define(n) => FewerActiveSteps(w, path, steps[1..], names[n := Defined(path, n)], active, fewer);
      case Use(n) => if n in names && !names[n].Opaque? { FewerActiveSteps(w, path, steps[1..], names, active, fewer); }
      case Fail =>
      case Load(local, target, exported) =>
        if exported in w.bindings {
          FewerActiveSteps(w, path, steps[1..], names[local := Supported(exported)], active, fewer);
        } else if target.None? {
          FewerActiveSteps(w, path, steps[1..], names[local := Opaque(NotLocal)], active, fewer);
        } else {
          FewerActive(w, target.value, active, fewer);
          var r := Evaluate(w, target.value, active);
          FewerActiveSteps(w, path, steps[1..], names[local := Imported(r, target.value, exported)], active, fewer);
        }
    }
  }

  /** If activating `x` turns the evaluation of `y` into a cycle, that evaluation loads `x` itself. */
  lemma {:induction false} Blame(w: World, y: string, active: set<string>, x: string) returns (at: set<string>)
    requires !Evaluate(w, y, active).Cycle? && Evaluate(w, y, active + {x}).Cycle?
    ensures active <= at && (y == x || y in at) && !Evaluate(w, x, at).Cycle?
    ensures Reach(LoadGraph(w), y, x)
    decreases |w.files.Keys - active|, 0, 0
  {
    if y == x {
      at := active;
      ReachSelf(LoadGraph(w), y);
    } else {
      Shrinks(w.files.Keys, active, y);
      assert (active + {x}) + {y} == (active + {y}) + {x};
      at := BlameSteps(w, y, w.files[y], Initial(w), active + {y}, x);
    }
  }

  lemma {:induction false} BlameSteps(w: World, path: string, steps: seq<Step>, names: Namespace,
                                      active: set<string>, x: string) returns (at: set<string>)
    requires !Execute(w, path, steps, names, active).Cycle? && Execute(w, path, steps, names, active + {x}).Cycle?
    requires StepsOf(w, path, steps)
    ensures active <= at && !Evaluate(w, x, at).Cycle? && Reach(LoadGraph(w), path, x)
    decreases |w.files.Keys - active|, 1, |steps|
  {
    hide StepsOf, LoadGraph, Reach;
    StepTarget(w, path, steps);
    match steps[0]
    case Define(n) => at := BlameSteps(w, path, steps[1..], names[n := Defined(path, n)], active, x);
    case Use(n) => at := BlameSteps(w, path, steps[1..], names, active, x);
    case Load(local, target, exported) =>
      if exported in w.bindings {
        at := BlameSteps(w, path, steps[1..], names[local := Supported(exported)], active, x);
      } else if target.None? {
        at := BlameSteps(w, path, steps[1..], names[local := Opaque(NotLocal)], active, x);
      } else if Evaluate(w, target.value, active + {x}).Cycle? {
        at := Blame(w, target.value, active, x);
        ReachStep(LoadGraph(w), path, target.value, x);
      } else {
        FewerActive(w, target.value, active + {x}, active);
        var r := Evaluate(w, target.value, active);
        at := BlameSteps(w, path, steps[1..], names[local := Imported(r, target.value, exported)], active, x);
      }
  }

  /** Evaluating `x` loads `y`: a cycle met below `y` is met below `x`. */
  ghost predicate Needs(w: World, x: string, y: string) {
    forall active: set<string> :: Evaluate(w, y, active + {x}).Cycle? ==> Evaluate(w, x, active).Cycle?
  }

  lemma MoreActive(w: World, path: string, fewer: set<string>, active: set<string>)
    requires fewer <= active && Evaluate(w, path, fewer).Cycle?
    ensures Evaluate(w, path, active).Cycle?
  {
    if !Evaluate(w, path, active).Cycle? { FewerActive(w, path, active, fewer); }
  }

  lemma NeedsTrans(w: World, x: string, y: string, z: string)
    requires Needs(w, x, y) && Needs(w, y, z)
    ensures Needs(w, x, z)
  {
    forall active: set<string> | Evaluate(w, z, active + {x}).Cycle? ensures Evaluate(w, x, active).Cycle? {
      MoreActive(w, z, active + {x}, active + {x} + {y});
    }
  }

  lemma NeedsItself(w: World, x: string)
    requires Needs(w, x, x)
    ensures Evaluate(w, x, {}).Cycle?
  {
    assert Evaluate(w, x, {} + {x}).Cycle?;
  }

  /** While `x` is being evaluated, importing `y` fresh gives what the evaluation of `x` uses. */
  lemma ImportIsFresh(w: World, x: string, y: string)
    requires Needs(w, x, y)
    ensures Evaluate(w, y, {x}) == Evaluate(w, y, {})
  {
    if Evaluate(w, y, {}).Cycle? {
      MoreActive(w, y, {}, {x});
    } else if Evaluate(w, y, {x}).Cycle? {
      assert {} + {x} == {x};
      var at := Blame(w, y, {}, x);
      if y == x { NeedsItself(w, x); }
      assert false;
    } else {
      FewerActive(w, y, {x}, {});
    }
  }

  /** After some steps, the rest of the body decides the outcome, unless a cycle already has. */
  ghost predicate Resumes(w: World, path: string, steps: seq<Step>, names: Namespace) {
    path in w.files &&
    forall active: set<string> :: path !in active ==>
      var whole := Execute(w, path, w.files[path], Initial(w), active + {path});
      whole.Cycle? || whole == Execute(w, path, steps, names, active + {path})
  }

  lemma LoadNeeds(w: World, path: string, steps: seq<Step>, names: Namespace)
    requires Resumes(w, path, steps, names) && steps != [] && steps[0].Load?
    requires steps[0].exported !in w.bindings && steps[0].target.Some?
    ensures Needs(w, path, steps[0].target.value)
  {
    var y := steps[0].target.value;
    forall active: set<string> | Evaluate(w, y, active + {path}).Cycle? ensures Evaluate(w, path, active).Cycle? {
      if path !in active {
        assert Execute(w, path, steps, names, active + {path}).Cycle?;
      }
    }
  }

  lemma ResumesAfterLoad(w: World, path: string, steps: seq<Step>, names: Namespace)
    requires Resumes(w, path, steps, names) && steps != [] && steps[0].Load?
    requires steps[0].exported !in w.bindings && steps[0].target.Some?
    requires !Evaluate(w, steps[0].target.value, {}).Cycle?
    ensures var r := Evaluate(w, steps[0].target.value, {});
            Resumes(w, path, steps[1..], names[steps[0].local := Imported(r, steps[0].target.value, steps[0].exported)])
  {
    var y, r := steps[0].target.value, Evaluate(w, steps[0].target.value, {});
    forall active: set<string> | path !in active
      ensures var whole := Execute(w, path, w.files[path], Initial(w), active + {path});
              whole.Cycle? ||
              whole == Execute(w, path, steps[1..], names[steps[0].local := Imported(r, y, steps[0].exported)],
                               active + {path})
    {
      if !Evaluate(w, y, active + {path}).Cycle? { FewerActive(w, y, active + {path}, {}); }
    }
  }

  // ----- The loader -----

  ghost predicate TablesSound(w: World, modules: map<string, Namespace>, failures: set<string>, inputs: set<string>) {
    && (forall p :: p in modules ==> Evaluate(w, p, {}) == Loaded(modules[p]))
    && (forall p :: p in failures ==> Evaluate(w, p, {}) == Failed)
    && modules.Keys <= inputs <= w.files.Keys
  }

  class Loader {
    const world: World
    var modules: map<string, Namespace>
    var failures: set<string>
    var loading: seq<string>
    var inputs: set<string>

    constructor (world: World)
      ensures Valid() && loading == [] && this.world == world
    {
      this.world := world;
      modules, failures, loading, inputs := map[], {}, [], {};
    }

    /** Only complete evaluations are published, only failed ones recorded, and cycles are in neither table. */
    ghost predicate Valid()
      reads this
    {
      TablesSound(world, modules, failures, inputs) && Distinct(loading) && ToSet(loading) <= world.files.Keys
    }

    /** Every active module is evaluating an import that led to `path`. */
    ghost predicate Chained(path: string)
      reads this
    {
      forall x :: x in loading ==> Needs(world, x, path)
    }

    /** The outcome of a file does not depend on what was loaded before it. */
    method LoadFile(path: string) returns (r: Outcome)
      requires Valid() && Chained(path)
      modifies this`modules, this`failures, this`loading, this`inputs
      decreases |world.files.Keys - ToSet(loading)|, 1
      ensures Valid() && loading == old(loading) && old(inputs) <= inputs
      ensures r == Evaluate(world, path, {})
      ensures (r.Loaded? <==> path in modules) && (r.Failed? <==> path in failures)
    {
      hide Evaluate, Needs;
      if path in modules {
        return Loaded(modules[path]);
      }
      if path in failures {
        return Failed;
      }
      if path in loading {
        NeedsItself(world, path);
        return Cycle;
      }
      if path !in world.files {
        MissingFails(world, path);
        failures := failures + {path};
        return Failed;
      }
      inputs := inputs + {path};
      r := EvaluateFile(path);
      if r.Failed? {
        failures := failures + {path};
      } else if r.Loaded? {
        modules := modules[path := r.exports];
      }
    }

    /** `path` is the module being evaluated, and its ancestors need it. */
    ghost predicate OnTop(path: string)
      reads this
    {
      && loading != [] && loading[|loading| - 1] == path
      && forall x :: x in loading[..|loading| - 1] ==> Needs(world, x, path)
    }

    /** Runs a module body with the module on the chain; the chain is restored however it ends. */
    method EvaluateFile(path: string) returns (r: Outcome)
      requires Valid() && Chained(path) && path in world.files && path !in loading
      modifies this`modules, this`failures, this`loading, this`inputs
      decreases |world.files.Keys - ToSet(loading)|, 0
      ensures Valid() && loading == old(loading) && old(inputs) <= inputs
      ensures r == Evaluate(world, path, {})
    {
      hide Evaluate, Needs, TablesSound;
      Shrinks(world.files.Keys, ToSet(loading), path);
      assert ToSet(loading + [path]) == ToSet(loading) + {path};
      DistinctAppend(loading, path);
      ghost var chain := loading;
      loading := loading + [path];
      assert loading[..|loading| - 1] == chain;
      r := RunBody(path);
      loading := loading[..|loading| - 1];
    }

    /** The body of the module on top of the chain, step by step. */
    method RunBody(path: string) returns (r: Outcome)
      requires Valid() && OnTop(path) && path in world.files
      modifies this`modules, this`failures, this`loading, this`inputs
      decreases |world.files.Keys - ToSet(loading)|, 4
      ensures Valid() && loading == old(loading) && old(inputs) <= inputs
      ensures r == Evaluate(world, path, {})
    {
      hide Evaluate, Execute, Needs, Resumes, Initial, TablesSound;
      var steps := world.files[path];
      r := Loaded(Initial(world));
      StartsFresh(world, path);
      while steps != []
        invariant Valid() && loading == old(loading) && old(inputs) <= inputs
        invariant r.Loaded? && Resumes(world, path, steps, r.exports)
        invariant Evaluate(world, path, {}) == Execute(world, path, steps, r.exports, {path})
        decreases |steps|
      {
        r := RunStep(path, steps, r.exports);
        if !r.Loaded? {
          return;
        }
        steps := steps[1..];
      }
      FinishedBody(world, path, r.exports);
    }

    /** One step: the names after it, or how the evaluation ends there. */
    method RunStep(path: string, steps: seq<Step>, names: Namespace) returns (r: Outcome)
      requires Valid() && OnTop(path) && steps != [] && Resumes(world, path, steps, names)
      modifies this`modules, this`failures, this`loading, this`inputs
      decreases |world.files.Keys - ToSet(loading)|, 3
      ensures Valid() && loading == old(loading) && old(inputs) <= inputs
      ensures if r.Loaded? then Follows(world, path, steps, names, r.exports)
              else Execute(world, path, steps, names, {path}) == r
    {
      hide Evaluate, Execute, Needs, Resumes, Initial, TablesSound, Imported;
      StepResumes(world, path, steps, names);
      match steps[0] {
        case Define(n) => r := Loaded(names[n := Defined(path, n)]);
        case Use(n) => r := if n !in names || names[n].Opaque? then Failed else Loaded(names);
        case Fail => r := Failed;
        case Load(local, target, exported) =>
          if exported in world.bindings {
            r := Loaded(names[local := Supported(exported)]);
          } else if target.None? {
            r := Loaded(names[local := Opaque(NotLocal)]);
          } else {
            LoadNeeds(world, path, steps, names);
            var imported := ImportFrom(path, target.value);
            if imported.Cycle? {
              r := Cycle;
            } else {
              ResumesAfterLoad(world, path, steps, names);
              r := Loaded(names[local := Imported(imported, target.value, exported)]);
            }
          }
      }
    }

    /** Loads an import of the module on top of the chain. */
    method ImportFrom(path: string, target: string) returns (r: Outcome)
      requires Valid() && OnTop(path) && Needs(world, path, target)
      modifies this`modules, this`failures, this`loading, this`inputs
      decreases |world.files.Keys - ToSet(loading)|, 2
      ensures Valid() && loading == old(loading) && old(inputs) <= inputs
      ensures r == Evaluate(world, target, {})
      ensures Evaluate(world, target, {path}) == r
    {
      hide Evaluate, Needs;
      forall x | x in loading ensures Needs(world, x, target) {
        if x != path {
          assert x in loading[..|loading| - 1];
          NeedsTrans(world, x, path, target);
        }
      }
      ImportIsFresh(world, path, target);
      r := LoadFile(target);
    }

    /** An import requested from outside: failures and cycles become opaque stand-ins. */
    method SymbolFor(target: Option<string>, name: string) returns (s: Symbol)
      requires Valid() && loading == []
      modifies this`modules, this`failures, this`loading, this`inputs
      ensures Valid() && loading == []
      ensures s == Answer(world, target, name)
    {
      if name in world.bindings {
        return Supported(name);
      }
      if target.None? {
        return Opaque(NotLocal);
      }
      var r := LoadFile(target.value);
      return Imported(r, target.value, name);
    }

    /** Any sequence of requests: the chain is empty between them and each gets the table-free answer. */
    method SymbolsFor(requests: seq<(Option<string>, string)>) returns (symbols: seq<Symbol>)
      requires Valid() && loading == []
      modifies this`modules, this`failures, this`loading, this`inputs
      ensures Valid() && loading == [] && |symbols| == |requests|
      ensures forall i :: 0 <= i < |requests| ==> symbols[i] == Answer(world, requests[i].0, requests[i].1)
    {
      hide Evaluate, Answer;
      symbols := [];
      for k := 0 to |requests|
        invariant Valid() && loading == [] && |symbols| == k
        invariant forall i :: 0 <= i < k ==> symbols[i] == Answer(world, requests[i].0, requests[i].1)
      {
        var s := SymbolFor(requests[k].0, requests[k].1);
        symbols := symbols + [s];
      }
    }
  }

  lemma MissingFails(w: World, path: string)
    requires path !in w.files
    ensures Evaluate(w, path, {}) == Failed
  {}

  lemma StartsFresh(w: World, path: string)
    requires path in w.files
    ensures Resumes(w, path, w.files[path], Initial(w))
    ensures Evaluate(w, path, {}) == Execute(w, path, w.files[path], Initial(w), {path})
  {
    assert {} + {path} == {path};
  }

  lemma FinishedBody(w: World, path: string, names: Namespace)
    ensures Execute(w, path, [], names, {path}) == Loaded(names)
  {}

  /** One step that imports nothing carries the evaluation on, or fails it. */
  lemma StepResumes(w: World, path: string, steps: seq<Step>, names: Namespace)
    requires steps != [] && Resumes(w, path, steps, names)
    ensures var now := Execute(w, path, steps, names, {path});
            match steps[0]
            case Define(n) => Follows(w, path, steps, names, names[n := Defined(path, n)])
            case Use(n) =>
              if n !in names || names[n].Opaque? then now == Failed else Follows(w, path, steps, names, names)
            case Fail => now == Failed
            case Load(local, target, exported) =>
              if exported in w.bindings then Follows(w, path, steps, names, names[local := Supported(exported)])
              else if target.None? then Follows(w, path, steps, names, names[local := Opaque(NotLocal)])
              else now == var r := Evaluate(w, target.value, {path});
                          if r.Cycle? then Cycle
                          else Execute(w, path, steps[1..], names[local := Imported(r, target.value, exported)], {path})
  {
    hide Evaluate;
    match steps[0]
    case Define(n) => FollowsUnfold(w, path, steps, names, names[n := Defined(path, n)]);
    case Use(n) => if n in names && !names[n].Opaque? { FollowsUnfold(w, path, steps, names, names); }
    case Fail =>
    case Load(local, target, exported) =>
      if exported in w.bindings {
        FollowsUnfold(w, path, steps, names, names[local := Supported(exported)]);
      } else if target.None? {
        FollowsUnfold(w, path, steps, names, names[local := Opaque(NotLocal)]);
      }
  }

  ghost predicate Follows(w: World, path: string, steps: seq<Step>, names: Namespace, next: Namespace)
    requires steps != []
  {
    && Resumes(w, path, steps[1..], next)
    && Execute(w, path, steps, names, {path}) == Execute(w, path, steps[1..], next, {path})
  }

  lemma FollowsUnfold(w: World, path: string, steps: seq<Step>, names: Namespace, next: Namespace)
    requires steps != [] && Resumes(w, path, steps, names)
    requires forall active :: Execute(w, path, steps, names, active) == Execute(w, path, steps[1..], next, active)
    ensures Follows(w, path, steps, names, next)
  {
    hide Execute;
  }

  lemma TablesDisjoint(w: World, modules: map<string, Namespace>, failures: set<string>, inputs: set<string>)
    requires TablesSound(w, modules, failures, inputs)
    ensures modules.Keys !! failures
    ensures forall p :: Evaluate(w, p, {}).Cycle? ==> p !in modules && p !in failures
  {
    hide Evaluate;
    forall p | p in modules ensures p !in failures {
      assert Evaluate(w, p, {}) == Loaded(modules[p]);
    }
  }

  /** No module is nested more deeply than there are files. */
  lemma {:induction false} NestingBounded(loading: seq<string>, files: set<string>)
    requires Distinct(loading) && ToSet(loading) <= files
    ensures |loading| <= |files|
  {
    if loading != [] {
      var init, last := loading[..|loading| - 1], loading[|loading| - 1];
      assert loading == init + [last];
      DistinctAppend(init, last);
      assert last in ToSet(loading) && ToSet(init) <= files - {last};
      NestingBounded(init, files - {last});
    }
  }
}
