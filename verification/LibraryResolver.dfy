/** The mutable source-library graph: declarations, interface cache and active chain. */
module LibraryResolver {
  import opened Optional
  import opened Digraph
  import opened Sequences
  import opened Dedupe
  import opened LibraryGraph

  type Bindings = map<string, map<string, (seq<string>, seq<string>)>>

  function DeclaredNames(bindings: Bindings): set<string> {
    set p, x | p in bindings && x in bindings[p] :: x
  }

  /** Names that are all new and mentioned once. */
  ghost predicate Fresh(libs: Libraries, names: seq<string>) {
    Distinct(names) && forall n :: n in names ==> n !in libs
  }

  /** Everything already registered is kept, and what is new is `library`. */
  ghost predicate Extends(before: Libraries, after: Libraries, library: Library) {
    && before.Keys <= after.Keys
    && forall n :: n in after ==> after[n] == if n in before then before[n] else library
  }

  lemma FreshAppend(libs: Libraries, names: seq<string>, k: nat)
    requires k < |names| && Fresh(libs, names[..k])
    ensures Fresh(libs, names[..k + 1]) <==> names[k] !in libs && names[k] !in names[..k]
    ensures Fresh(libs, names) ==> Fresh(libs, names[..k + 1])
  {
    assert names[..k + 1] == names[..k] + [names[k]];
    DistinctAppend(names[..k], names[k]);
  }

  lemma RegisterCanonical(libs: Libraries, n: string, library: Library)
    requires Canonical(libs) && n !in libs
    requires n == library.name || (library.name in libs && libs[library.name] == library)
    ensures Canonical(libs[n := library])
  {}

  lemma RegisterExtends(before: Libraries, libs: Libraries, n: string, library: Library)
    requires Extends(before, libs, library) && n !in libs
    ensures Extends(before, libs[n := library], library)
  {}

  /** The state after the first `k` names were registered. */
  ghost predicate Registering(before: Libraries, libs: Libraries, library: Library, names: seq<string>, k: nat) {
    && Canonical(libs) && Extends(before, libs, library) && k <= |names| && Fresh(before, names[..k])
    && libs.Keys == before.Keys + ToSet(names[..k])
    && (k > 0 ==> library.name in libs && libs[library.name] == library)
  }

  lemma RegisterNext(before: Libraries, libs: Libraries, library: Library, names: seq<string>, k: nat)
    requires k < |names| && names[0] == library.name && Registering(before, libs, library, names, k)
    ensures Canonical(libs) && Extends(before, libs, library)
    ensures names[k] in libs ==> !Fresh(before, names)
    ensures names[k] !in libs ==> Registering(before, libs[names[k] := library], library, names, k + 1)
  {
    hide Canonical, Fresh, Extends;
    FreshAppend(before, names, k);
    assert ToSet(names[..k + 1]) == ToSet(names[..k]) + {names[k]};
    if names[k] !in libs {
      RegisterCanonical(libs, names[k], library);
      RegisterExtends(before, libs, names[k], library);
    }
  }

  lemma CanonicalName(libs: Libraries, n: string)
    requires Canonical(libs) && n in libs
    ensures libs[n].name in libs && libs[libs[n].name] == libs[n]
  {}

  ghost predicate CacheSound(libs: Libraries, bind: Binder, resolved: map<string, Interface>, bindings: Bindings)
    requires Canonical(libs)
  {
    forall n :: n in resolved ==>
      && n in libs && Meets(libs, bind, n, resolved[n])
      && ToSet(resolved[n].native) <= DeclaredNames(bindings)
  }

  /** No cached expansion mentions one of the names as a native leaf. */
  ghost predicate CacheApart(libs: Libraries, resolved: map<string, Interface>, names: seq<string>)
    requires Canonical(libs)
  {
    forall n :: n in resolved && n in libs && Expand(libs, n, {}).Some? ==>
        NoLeafAmong(Expand(libs, n, {}).value, names)
  }

  lemma CacheKept(before: Libraries, libs: Libraries, library: Library, names: seq<string>, k: nat, bind: Binder,
                  resolved: map<string, Interface>, bindings: Bindings)
    requires Canonical(before) && Registering(before, libs, library, names, k)
    ensures CacheSound(before, bind, resolved, bindings) && CacheApart(before, resolved, names) ==>
              CacheSound(libs, bind, resolved, bindings)
  {
    hide Expand, NoLeafAmong, FromKeys, Gather, Fresh, Distinct;
    assert Grows(before, libs, names);
    if CacheSound(before, bind, resolved, bindings) && CacheApart(before, resolved, names) {
      forall n | n in resolved ensures n in libs && Meets(libs, bind, n, resolved[n]) {
        ExpandGrows(before, libs, names, n, {});
      }
    }
  }

  /** New declarations break no cycle. */
  lemma CyclesKept(before: Libraries, libs: Libraries, library: Library)
    requires Extends(before, libs, library)
    ensures forall a :: CycleReachable(DependencyGraph(before), a) ==> CycleReachable(DependencyGraph(libs), a)
  {
    var g, h := DependencyGraph(before), DependencyGraph(libs);
    forall a, b | Edge(g, a, b) ensures Edge(h, a, b) {
      var d :| d in before[a].dependencies && d in before && before[d].name == b;
      assert d in libs && libs[d].name == b;
    }
    forall a | CycleReachable(g, a) ensures CycleReachable(h, a) {
      CycleGrows(g, h, a);
    }
  }

  lemma CacheInsert(libs: Libraries, bind: Binder, resolved: map<string, Interface>, bindings: Bindings, n: string,
                    i: Interface)
    requires Canonical(libs) && CacheSound(libs, bind, resolved, bindings)
    requires n in libs && Meets(libs, bind, n, i) && ToSet(i.native) <= DeclaredNames(bindings)
    ensures CacheSound(libs, bind, resolved[n := i], bindings)
  {
    hide Meets, DeclaredNames;
  }

  lemma CacheGrow(libs: Libraries, bind: Binder, resolved: map<string, Interface>, before: Bindings, after: Bindings)
    requires Canonical(libs) && CacheSound(libs, bind, resolved, before) &&
             DeclaredNames(before) <= DeclaredNames(after)
    ensures CacheSound(libs, bind, resolved, after)
  {
    hide Meets, DeclaredNames;
  }

  /** A call fails exactly on a reachable cycle, and otherwise answers the expansion over declared names. */
  ghost predicate Answers(libs: Libraries, bind: Binder, n: string, r: Option<Interface>, bindings: Bindings)
    requires Canonical(libs) && n in libs
  {
    && (r.None? <==> Cyclic(libs, n))
    && (r.Some? ==> Meets(libs, bind, n, r.value) && ToSet(r.value.native) <= DeclaredNames(bindings))
  }

  /** The names a cycle error leaves behind on the chain all reach a cycle. */
  ghost predicate Abandoned(g: Graph, before: seq<string>, after: seq<string>) {
    before <= after && forall a :: a in after[|before|..] ==> CycleReachable(g, a)
  }

  lemma AbandonedStep(libs: Libraries, before: seq<string>, n: string, after: seq<string>)
    requires n in libs && Cyclic(libs, n) && Abandoned(DependencyGraph(libs), before + [libs[n].name], after)
    ensures Abandoned(DependencyGraph(libs), before, after) && before + [libs[n].name] <= after
  {
    hide CycleReachable, DependencyGraph;
    assert after[|before|..] == [libs[n].name] + after[|before| + 1..];
  }

  /** Every active name leads to declaration `n`, or to a cycle that was already reported. */
  ghost predicate Chained(libs: Libraries, active: seq<string>, n: string)
    requires n in libs
  {
    forall a :: a in active ==>
      CycleReachable(DependencyGraph(libs), a) || Leads(DependencyGraph(libs), a, libs[n].name)
  }

  lemma ActiveIsCyclic(libs: Libraries, active: seq<string>, n: string)
    requires n in libs && libs[n].name in active && Chained(libs, active, n)
    ensures Cyclic(libs, n)
  {
    ReachSelf(DependencyGraph(libs), libs[n].name);
  }

  /** Extending the chain by a declaration keeps it a chain for each of its dependencies. */
  lemma ChainDown(libs: Libraries, active: seq<string>, n: string)
    requires Canonical(libs) && n in libs && Chained(libs, active, n)
    ensures forall d :: d in libs[n].dependencies && d in libs ==> Chained(libs, active + [libs[n].name], d)
  {
    hide CycleReachable, Leads;
    var g, name := DependencyGraph(libs), libs[n].name;
    forall d, a | d in libs[n].dependencies && d in libs && a in active + [name]
      ensures CycleReachable(g, a) || Leads(g, a, libs[d].name)
    {
      DependencyEdge(libs, n, d);
      ReachEdge(g, name, libs[d].name);
      LeadsEdge(g, name, libs[d].name);
      if a != name && !CycleReachable(g, a) {
        assert a in active;
        LeadsTrans(g, a, name, libs[d].name);
      }
    }
  }

  class SourceGraph {
    const bind: Binder
    var libraries: Libraries
    var resolved: map<string, Interface>
    var resolving: seq<string>
    var bindings: Bindings

    constructor (bind: Binder)
      ensures Valid() && Doomed() && libraries == map[] && resolved == map[] && resolving == [] && this.bind == bind
    {
      this.bind := bind;
      libraries, resolved, resolving, bindings := map[], map[], [], map[];
    }

    /** Every cached interface is the full expansion, over native names already declared. */
    ghost predicate Valid()
      reads this
    {
      Canonical(libraries) && CacheSound(libraries, bind, resolved, bindings)
    }

    /** Between calls the active chain only holds names left behind by a reported cycle. */
    ghost predicate Doomed()
      reads this
    {
      forall a :: a in resolving ==> CycleReachable(DependencyGraph(libraries), a)
    }

    /** Registers a declaration under its name and aliases; the first duplicate name stops it. The cache
        stays sound if no cached expansion mentions one of the names as a native leaf, and what a
        reported cycle left on the chain still reaches one. */
    method Add(library: Library, aliases: seq<string>) returns (ok: bool)
      requires Canonical(libraries)
      modifies this`libraries
      ensures Canonical(libraries)
      ensures ok <==> Fresh(old(libraries), [library.name] + aliases)
      ensures ok ==> libraries.Keys == old(libraries.Keys) + ToSet([library.name] + aliases)
      ensures Extends(old(libraries), libraries, library)
      ensures old(Valid()) && CacheApart(old(libraries), resolved, [library.name] + aliases) ==> Valid()
      ensures old(Doomed()) ==> Doomed()
    {
      var names := [library.name] + aliases;
      for k := 0 to |names|
        invariant Registering(old(libraries), libraries, library, names, k)
      {
        hide Canonical, Fresh, Extends, Registering;
        RegisterNext(old(libraries), libraries, library, names, k);
        if names[k] in libraries {
          CacheKept(old(libraries), libraries, library, names, k, bind, resolved, bindings);
          CyclesKept(old(libraries), libraries, library);
          return false;
        }
        libraries := libraries[names[k] := library];
      }
      CacheKept(old(libraries), libraries, library, names, |names|, bind, resolved, bindings);
      CyclesKept(old(libraries), libraries, library);
      assert names[..|names|] == names;
      return true;
    }

    method BindNative(package: string, dependencies: seq<string>, options: seq<string>) returns (name: string)
      modifies this`bindings
      ensures name == bind(package, dependencies, options)
      ensures package in bindings && name in bindings[package] && bindings[package][name] == (dependencies, options)
      ensures DeclaredNames(bindings) == DeclaredNames(old(bindings)) + {name}
    {
      name := bind(package, dependencies, options);
      var known := if package in bindings then bindings[package] else map[];
      bindings := bindings[package := known[name := (dependencies, options)]];
      assert DeclaredNames(bindings) == DeclaredNames(old(bindings)) + {name} by {
        assert name in bindings[package];
        forall x | x in DeclaredNames(old(bindings)) ensures x in DeclaredNames(bindings) {
          var p :| p in old(bindings) && x in old(bindings)[p];
          assert p in bindings && x in bindings[p];
        }
      }
    }

    /**
     Returns the deduplicated expansion of a declaration, or None (the raised cycle error)
     exactly when a dependency cycle is reachable from it.
     */
    method Resolve(name: string) returns (r: Option<Interface>)
      requires Valid()
      requires name in libraries ==> Chained(libraries, resolving, name)
      modifies this`resolved, this`resolving, this`bindings
      decreases |libraries.Keys - ToSet(resolving)|, 1
      ensures Valid() && DeclaredNames(old(bindings)) <= DeclaredNames(bindings)
      ensures name !in libraries ==> r == Some(BLANK)
      ensures name in libraries ==> (r.None? <==> Cyclic(libraries, name))
      ensures name in libraries && r.Some? ==> Meets(libraries, bind, name, r.value)
      ensures r.Some? ==> resolving == old(resolving) && ToSet(r.value.native) <= DeclaredNames(bindings)
      ensures r.None? ==> Abandoned(DependencyGraph(libraries), old(resolving), resolving)
      ensures name in libraries && r.None? ==>
                if libraries[name].name in old(resolving) then resolving == old(resolving)
                else old(resolving) + [libraries[name].name] <= resolving
      ensures name in libraries && r.Some? ==>
                libraries[name].name in resolved && resolved[libraries[name].name] == r.value
    {
      hide Meets, CycleReachable, Leads, Cyclic, DependencyGraph, DeclaredNames;
      if name !in libraries {
        return Some(BLANK);
      }
      var library := libraries[name];
      if library.name in resolved {
        SameMeets(libraries, bind, name, resolved[library.name]);
        MeetsAcyclic(libraries, bind, name, resolved[library.name]);
        return Some(resolved[library.name]);
      }
      if library.name in resolving {
        ActiveIsCyclic(libraries, resolving, name);
        return None;
      }
      r := ResolveFresh(name, library);
    }

    /** Resolves a declaration that is neither cached nor active, keeping it active meanwhile. */
    method ResolveFresh(name: string, library: Library) returns (r: Option<Interface>)
      requires Valid() && name in libraries && libraries[name] == library && Chained(libraries, resolving, name)
      requires library.name !in resolving
      modifies this`resolved, this`resolving, this`bindings
      decreases |libraries.Keys - ToSet(resolving)|, 0
      ensures Valid() && DeclaredNames(old(bindings)) <= DeclaredNames(bindings)
      ensures Answers(libraries, bind, name, r, bindings)
      ensures if r.Some? then resolving == old(resolving)
              else && Abandoned(DependencyGraph(libraries), old(resolving), resolving)
                   && old(resolving) + [library.name] <= resolving
      ensures r.Some? ==> library.name in resolved && resolved[library.name] == r.value
    {
      hide Meets, Cyclic, DependencyGraph, DeclaredNames, MeetsDep, Canonical, CacheSound, Abandoned, Chained;
      CanonicalName(libraries, name);
      Shrinks(libraries.Keys, ToSet(resolving), library.name);
      assert ToSet(resolving + [library.name]) == ToSet(resolving) + {library.name};
      ChainDown(libraries, resolving, name);
      resolving := resolving + [library.name];
      CyclicUnfold(libraries, name);
      var interfaces := ResolveDependencies(name, library);
      if interfaces.None? {
        AbandonedStep(libraries, old(resolving), name, resolving);
        return None;
      }
      var result := Conclude(name, library, interfaces.value);
      r := Some(result);
    }

    /** Leaves the active chain and caches the assembled interface. */
    method Conclude(name: string, library: Library, interfaces: seq<Interface>) returns (result: Interface)
      requires Valid() && name in libraries && libraries[name] == library && !Cyclic(libraries, name)
      requires |interfaces| == |library.dependencies| && resolving != []
      requires forall j :: 0 <= j < |interfaces| ==> MeetsDep(libraries, bind, library.dependencies[j], interfaces[j])
      requires forall d :: d in library.dependencies && d in libraries ==>
                 Chained(libraries, resolving, d) && !Cyclic(libraries, d)
      modifies this`resolved, this`resolving, this`bindings
      decreases |libraries.Keys - ToSet(resolving)|, 5
      ensures Valid() && DeclaredNames(old(bindings)) <= DeclaredNames(bindings)
      ensures resolving == old(resolving)[..|old(resolving)| - 1]
      ensures Meets(libraries, bind, name, result) && ToSet(result.native) <= DeclaredNames(bindings)
      ensures library.name in resolved && resolved[library.name] == result
    {
      hide Meets, Cyclic, DependencyGraph, DeclaredNames, MeetsDep, Canonical, CacheSound, Chained;
      CanonicalName(libraries, name);
      result := Assemble(name, library, interfaces);
      resolving := resolving[..|resolving| - 1];
      SameMeets(libraries, bind, name, result);
      CacheInsert(libraries, bind, resolved, bindings, library.name, result);
      resolved := resolved[library.name := result];
    }

    /** Merges the dependency interfaces and collects the native names of a declaration. */
    method Assemble(name: string, library: Library, interfaces: seq<Interface>) returns (result: Interface)
      requires Valid() && name in libraries && libraries[name] == library && !Cyclic(libraries, name)
      requires |interfaces| == |library.dependencies|
      requires forall j :: 0 <= j < |interfaces| ==> MeetsDep(libraries, bind, library.dependencies[j], interfaces[j])
      requires forall d :: d in library.dependencies && d in libraries ==>
                 Chained(libraries, resolving, d) && !Cyclic(libraries, d)
      modifies this`resolved, this`resolving, this`bindings
      decreases |libraries.Keys - ToSet(resolving)|, 4
      ensures Valid() && resolving == old(resolving) && DeclaredNames(old(bindings)) <= DeclaredNames(bindings)
      ensures Meets(libraries, bind, name, result) && ToSet(result.native) <= DeclaredNames(bindings)
    {
      hide Meets, CycleReachable, Leads, Cyclic, DependencyGraph, DeclaredNames;
      hide PartsOk, MeetsDep, FromKeys, Flatten, Defaults, Options, WithDependencies, Canonical, CacheSound, Chained;
      var native, natives := NativeDependencies(name, library);
      ghost var before := bindings;
      var own := BindNative(library.package, Defaults(library), Options(library));
      CacheGrow(libraries, bind, resolved, before, bindings);
      KeysKept(native + [own]);
      assert ToSet(native + [own]) == ToSet(native) + {own};
      native := FromKeys(native + [own]);
      LibraryMeets(libraries, bind, name, interfaces, natives, native);
      WithNative(library.interface', interfaces, native);
      result := WithDependencies(library.interface', interfaces, native);
    }

    /** The dependency interfaces in order; the first cycle error is passed on, leaving the chain. */
    method ResolveDependencies(name: string, library: Library) returns (r: Option<seq<Interface>>)
      requires Valid() && name in libraries && libraries[name] == library
      requires forall d :: d in library.dependencies && d in libraries ==> Chained(libraries, resolving, d)
      modifies this`resolved, this`resolving, this`bindings
      decreases |libraries.Keys - ToSet(resolving)|, 2
      ensures Valid() && DeclaredNames(old(bindings)) <= DeclaredNames(bindings)
      ensures r.None? <==> exists d :: d in library.dependencies && d in libraries && Cyclic(libraries, d)
      ensures r.Some? ==>
                && resolving == old(resolving) && |r.value| == |library.dependencies|
                && forall j :: 0 <= j < |r.value| ==> MeetsDep(libraries, bind, library.dependencies[j], r.value[j])
      ensures r.None? ==> Abandoned(DependencyGraph(libraries), old(resolving), resolving)
    {
      hide Meets, CycleReachable, Leads, Cyclic, DependencyGraph, DeclaredNames;
      var interfaces: seq<Interface> := [];
      for k := 0 to |library.dependencies|
        invariant Valid() && DeclaredNames(old(bindings)) <= DeclaredNames(bindings)
        invariant resolving == old(resolving) && |interfaces| == k
        invariant forall j :: 0 <= j < k ==> MeetsDep(libraries, bind, library.dependencies[j], interfaces[j])
        invariant forall j :: 0 <= j < k && library.dependencies[j] in libraries ==>
                  !Cyclic(libraries, library.dependencies[j])
      {
        var d := library.dependencies[k];
        var i := Resolve(d);
        if i.None? {
          return None;
        }
        interfaces := interfaces + [i.value];
      }
      return Some(interfaces);
    }

    /** One dependency's native names: those of a declaration, or the leaf bound in this package. */
    method NativePartOf(library: Library, d: string) returns (part: seq<string>)
      requires Valid()
      requires d in libraries ==> Chained(libraries, resolving, d) && !Cyclic(libraries, d)
      modifies this`resolved, this`resolving, this`bindings
      decreases |libraries.Keys - ToSet(resolving)|, 2
      ensures Valid() && resolving == old(resolving) && DeclaredNames(old(bindings)) <= DeclaredNames(bindings)
      ensures DepEvents(libraries, library, d).Some?
      ensures part == FromKeys(Gather(DepEvents(libraries, library, d).value, NativeOf(bind)))
      ensures ToSet(part) <= DeclaredNames(bindings)
    {
      hide Meets, CycleReachable, Leads, Cyclic, DependencyGraph, DeclaredNames, FromKeys, DepEvents, Gather;
      if d in libraries {
        var i := Resolve(d);
        part := i.value.native;
      } else {
        var leaf := BindNative(library.package, [d], []);
        part := [leaf];
      }
      NativePart(libraries, bind, library, d, part);
    }

    /** Native leaves below a declaration, each bound in the package that mentions it. */
    method NativeDependencies(name: string, library: Library)
      returns (native: seq<string>, ghost natives: seq<seq<string>>)
      requires Valid() && name in libraries && libraries[name] == library
      requires forall d :: d in library.dependencies && d in libraries ==>
                 Chained(libraries, resolving, d) && !Cyclic(libraries, d)
      modifies this`resolved, this`resolving, this`bindings
      decreases |libraries.Keys - ToSet(resolving)|, 3
      ensures Valid() && resolving == old(resolving) && DeclaredNames(old(bindings)) <= DeclaredNames(bindings)
      ensures PartsOk(libraries, library, library.dependencies, natives, NativeOf(bind))
      ensures native == FromKeys(Flatten(natives)) && ToSet(native) <= DeclaredNames(bindings)
    {
      hide Meets, CycleReachable, Leads, Cyclic, DependencyGraph, DeclaredNames, FromKeys, DepEvents, Gather;
      var all: seq<string> := [];
      natives := [];
      for k := 0 to |library.dependencies|
        invariant Valid() && resolving == old(resolving) && DeclaredNames(old(bindings)) <= DeclaredNames(bindings)
        invariant all == Flatten(natives) && ToSet(all) <= DeclaredNames(bindings)
        invariant PartsOk(libraries, library, library.dependencies[..k], natives, NativeOf(bind))
      {
        hide PartsOk, Flatten;
        var d := library.dependencies[k];
        var part := NativePartOf(library, d);
        assert library.dependencies[..k + 1] == library.dependencies[..k] + [d];
        AppendPart(libraries, library, library.dependencies[..k], natives, d, part, NativeOf(bind));
        assert ToSet(all + part) == ToSet(all) + ToSet(part);
        natives := natives + [part];
        all := all + part;
      }
      assert library.dependencies[..|library.dependencies|] == library.dependencies;
      native := FromKeys(all);
      KeysKept(all);
    }

    /** Any sequence of requests, whatever failed before: each raises exactly on a reachable cycle. */
    method ResolveEach(names: seq<string>) returns (results: seq<Option<Interface>>)
      requires Valid() && Doomed()
      modifies this`resolved, this`resolving, this`bindings
      ensures Valid() && Doomed() && |results| == |names|
      ensures forall i :: 0 <= i < |names| ==>
                if names[i] !in libraries then results[i] == Some(BLANK)
                else if Cyclic(libraries, names[i]) then results[i].None?
                else results[i].Some? && Meets(libraries, bind, names[i], results[i].value)
      ensures (forall i :: 0 <= i < |names| ==> results[i].Some?) ==> resolving == old(resolving)
    {
      hide Meets, CycleReachable, Leads, Cyclic, DependencyGraph, DeclaredNames;
      results := [];
      for k := 0 to |names|
        invariant Valid() && Doomed() && |results| == k
        invariant forall i :: 0 <= i < k ==>
                    if names[i] !in libraries then results[i] == Some(BLANK)
                    else if Cyclic(libraries, names[i]) then results[i].None?
                    else results[i].Some? && Meets(libraries, bind, names[i], results[i].value)
        invariant (forall i :: 0 <= i < k ==> results[i].Some?) ==> resolving == old(resolving)
      {
        ghost var before := resolving;
        var r := Resolve(names[k]);
        if r.None? { assert resolving == before + resolving[|before|..]; }
        results := results + [r];
      }
    }
  }

  /** A declaration that depends on itself, directly or under an alias, reaches a cycle. */
  lemma SelfDependent(libs: Libraries, n: string, d: string)
    requires Canonical(libs) && n in libs && d in libs[n].dependencies && d in libs && libs[d] == libs[n]
    ensures Cyclic(libs, n)
  {
    var g, name := DependencyGraph(libs), libs[n].name;
    DependencyEdge(libs, n, d);
    LeadsEdge(g, name, name);
    ReachSelf(g, name);
  }

  /** The input that shows the chain is not restored: resolving a library that depends on itself
      fails and leaves its name active. */
  method LeavesChain(bind: Binder, library: Library) returns (graph: SourceGraph, r: Option<Interface>)
    requires library.name in library.dependencies
    ensures fresh(graph) && r.None? && graph.resolving != [] && graph.resolving[0] == library.name
  {
    hide CycleReachable, DependencyGraph, Cyclic, Chained, Abandoned, CacheSound, Expand;
    graph := new SourceGraph(bind);
    var ok := graph.Add(library, []);
    EmptyStart(graph.libraries, library, graph.bind, graph.bindings);
    r := graph.Resolve(library.name);
  }

  lemma EmptyStart(libs: Libraries, library: Library, bind: Binder, bindings: Bindings)
    requires Canonical(libs) && library.name in libs && libs[library.name] == library
    ensures CacheSound(libs, bind, map[], bindings) && Chained(libs, [], library.name)
    ensures library.name in library.dependencies ==> Cyclic(libs, library.name)
  {
    if library.name in library.dependencies {
      SelfDependent(libs, library.name, library.name);
    }
  }

  lemma SameMeets(libs: Libraries, bind: Binder, n: string, i: Interface)
    requires Canonical(libs) && n in libs
    ensures libs[n].name in libs && (Meets(libs, bind, libs[n].name, i) <==> Meets(libs, bind, n, i))
  {
    assert Expand(libs, libs[n].name, {}) == Expand(libs, n, {});
  }

  lemma MeetsAcyclic(libs: Libraries, bind: Binder, n: string, i: Interface)
    requires Canonical(libs) && n in libs && Meets(libs, bind, n, i)
    ensures !Cyclic(libs, n)
  {
    ExpandIffAcyclic(libs, n);
  }

  /** A declaration reaches a cycle exactly when one of its dependencies does. */
  lemma CyclicUnfold(libs: Libraries, n: string)
    requires Canonical(libs) && n in libs
    ensures Cyclic(libs, n) <==> exists d :: d in libs[n].dependencies && d in libs && Cyclic(libs, d)
  {
    hide Reach;
    var g, name := DependencyGraph(libs), libs[n].name;
    if d :| d in libs[n].dependencies && d in libs && Cyclic(libs, d) {
      DependencyEdge(libs, n, d);
      var c :| Reach(g, libs[d].name, c) && Leads(g, c, c);
      ReachStep(g, name, libs[d].name, c);
    }
    if Cyclic(libs, n) {
      var c :| Reach(g, name, c) && Leads(g, c, c);
      ReachCases(g, name, c);
      var x :| Edge(g, name, x) && Reach(g, x, c);
      assert x in Providers(libs, libs[n].dependencies);
      var d :| d in libs[n].dependencies && d in libs && libs[d].name == x;
    }
  }

  lemma NativePart(libs: Libraries, bind: Binder, library: Library, d: string, part: seq<string>)
    requires Canonical(libs)
    requires d in libs ==> exists i :: Meets(libs, bind, d, i) && part == i.native
    requires d !in libs ==> part == [bind(library.package, [d], [])]
    ensures DepEvents(libs, library, d).Some? &&
            part == FromKeys(Gather(DepEvents(libs, library, d).value, NativeOf(bind)))
  {
    if d !in libs {
      assert Gather([Leaf(library, d)], NativeOf(bind)) == part;
      FromKeysOne(part[0]);
    }
  }

  lemma AppendPart(libs: Libraries, library: Library, deps: seq<string>, parts: seq<seq<string>>, d: string,
                   part: seq<string>, pick: Event -> seq<string>)
    requires Canonical(libs) && PartsOk(libs, library, deps, parts, pick)
    requires DepEvents(libs, library, d).Some? && part == FromKeys(Gather(DepEvents(libs, library, d).value, pick))
    ensures PartsOk(libs, library, deps + [d], parts + [part], pick)
    ensures Flatten(parts + [part]) == Flatten(parts) + part
  {
    hide DepEvents, Gather;
    assert (parts + [part])[..|parts|] == parts;
  }

  lemma KeysKept(s: seq<string>)
    ensures ToSet(FromKeys(s)) == ToSet(s)
  {}
}
