/**
 Compile interfaces of source libraries: declarations, the plain recursive expansion of one,
 which visits every dependency again each time it is mentioned, and what an interface must
 hold to be the deduplicated form of that expansion.
 */
module LibraryGraph {
  import opened Optional
  import opened Digraph
  import opened Dedupe

  datatype Interface = Interface(includes: seq<string>, systemIncludes: seq<string>, defines: seq<string>,
                                 linkOptions: seq<string>, native: seq<string>)

  datatype Field = Includes | SystemIncludes | Defines | LinkOptions

  const BLANK := Interface([], [], [], [], [])

  function Get(i: Interface, f: Field): seq<string> {
    match f
    case Includes => i.includes
    case SystemIncludes => i.systemIncludes
    case Defines => i.defines
    case LinkOptions => i.linkOptions
  }

  datatype Library = Library(name: string, dependencies: seq<string>, interface': Interface,
                             compiled: seq<string>, alwayslink: bool, package: string)

  type Libraries = map<string, Library>

  /** Declarations are indexed by canonical name and by alias. */
  ghost predicate Canonical(libs: Libraries) {
    forall n :: n in libs ==> libs[n].name in libs && libs[libs[n].name] == libs[n]
  }

  /** The source-library edges between canonical names. */
  function DependencyGraph(libs: Libraries): Graph {
    map n | n in libs && libs[n].name == n :: Providers(libs, libs[n].dependencies)
  }

  function Providers(libs: Libraries, deps: seq<string>): (r: seq<string>)
    ensures forall x :: x in r <==> exists d :: d in deps && d in libs && libs[d].name == x
  {
    if deps == [] then []
    else
      assert deps == deps[..|deps| - 1] + [deps[|deps| - 1]];
      var rest, d := Providers(libs, deps[..|deps| - 1]), deps[|deps| - 1];
      if d in libs then rest + [libs[d].name] else rest
  }

  lemma DependencyEdge(libs: Libraries, n: string, d: string)
    requires Canonical(libs) && n in libs && d in libs && d in libs[n].dependencies
    ensures Edge(DependencyGraph(libs), libs[n].name, libs[d].name)
  {}

  // ----- The plain expansion -----

  /** A declaration is entered, mentions native leaves among its dependencies, and is left. */
  datatype Event = Enter(lib: Library) | Leaf(lib: Library, dependency: string) | Exit(lib: Library)

  function Expand(libs: Libraries, n: string, active: set<string>): Option<seq<Event>>
    requires Canonical(libs) && n in libs
    decreases |libs.Keys - active|, 0, 0
  {
    var lib := libs[n];
    if lib.name in active then None
    else
      Shrinks(libs.Keys, active, lib.name);
      match ExpandDeps(libs, lib, lib.dependencies, active + {lib.name})
      case None => None
      case Some(inner) => Some([Enter(lib)] + inner + [Exit(lib)])
  }

  function ExpandDeps(libs: Libraries, lib: Library, deps: seq<string>, active: set<string>): Option<seq<Event>>
    requires Canonical(libs)
    decreases |libs.Keys - active|, 1, |deps|
  {
    if deps == [] then Some([])
    else
      var d := deps[|deps| - 1];
      match ExpandDeps(libs, lib, deps[..|deps| - 1], active)
      case None => None
      case Some(before) =>
        if d !in libs then Some(before + [Leaf(lib, d)])
        else match Expand(libs, d, active)
          case None => None
          case Some(events) => Some(before + events)
  }

  /** The expansion fails exactly where the descent over canonical names repeats one. */
  lemma {:induction false} ExpandIffNoRepeat(libs: Libraries, n: string, active: set<string>)
    requires Canonical(libs) && n in libs
    ensures Expand(libs, n, active).Some? <==> NoRepeat(DependencyGraph(libs), libs[n].name, active)
    decreases |libs.Keys - active|, 0, 0
  {
    var g, lib := DependencyGraph(libs), libs[n];
    if lib.name !in active {
      Shrinks(libs.Keys, active, lib.name);
      Shrinks(g.Keys, active, lib.name);
      ExpandDepsIff(libs, lib, lib.dependencies, active + {lib.name});
      assert g[lib.name] == Providers(libs, lib.dependencies);
    }
  }

  lemma {:induction false} ExpandDepsIff(libs: Libraries, lib: Library, deps: seq<string>, active: set<string>)
    requires Canonical(libs)
    ensures ExpandDeps(libs, lib, deps, active).Some? <==>
            forall x :: x in Providers(libs, deps) ==> NoRepeat(DependencyGraph(libs), x, active)
    decreases |libs.Keys - active|, 1, |deps|
  {
    if deps != [] {
      var init, d := deps[..|deps| - 1], deps[|deps| - 1];
      ExpandDepsIff(libs, lib, init, active);
      if d in libs {
        ExpandIffNoRepeat(libs, d, active);
        assert Providers(libs, deps) == Providers(libs, init) + [libs[d].name];
      }
    }
  }

  /** With fewer active names the same expansion is produced. */
  lemma {:induction false} ExpandShrink(libs: Libraries, n: string, active: set<string>, fewer: set<string>)
    requires Canonical(libs) && n in libs && fewer <= active && Expand(libs, n, active).Some?
    ensures Expand(libs, n, fewer) == Expand(libs, n, active)
    decreases |libs.Keys - active|, 0, 0
  {
    var lib := libs[n];
    Shrinks(libs.Keys, active, lib.name);
    ExpandDepsShrink(libs, lib, lib.dependencies, active + {lib.name}, fewer + {lib.name});
  }

  lemma {:induction false} ExpandDepsShrink(libs: Libraries, lib: Library, deps: seq<string>,
                                            active: set<string>, fewer: set<string>)
    requires Canonical(libs) && fewer <= active && ExpandDeps(libs, lib, deps, active).Some?
    ensures ExpandDeps(libs, lib, deps, fewer) == ExpandDeps(libs, lib, deps, active)
    decreases |libs.Keys - active|, 1, |deps|
  {
    if deps != [] {
      ExpandDepsShrink(libs, lib, deps[..|deps| - 1], active, fewer);
      if deps[|deps| - 1] in libs { ExpandShrink(libs, deps[|deps| - 1], active, fewer); }
    }
  }

  /** Everything already registered is kept, and what is new is one of `names`. */
  ghost predicate Grows(before: Libraries, after: Libraries, names: seq<string>) {
    && (forall x :: x in before ==> x in after && after[x] == before[x])
    && (forall x :: x in after && x !in before ==> x in names)
  }

  ghost predicate NoLeafAmong(events: seq<Event>, names: seq<string>) {
    forall i :: 0 <= i < |events| && events[i].Leaf? ==> events[i].dependency !in names
  }

  /** New declarations change an expansion only through leaves that they name. */
  lemma {:induction false} ExpandGrows(before: Libraries, after: Libraries, names: seq<string>, n: string,
                                       active: set<string>)
    requires Canonical(before) && Canonical(after) && Grows(before, after, names) && n in before
    requires Expand(before, n, active).Some? && NoLeafAmong(Expand(before, n, active).value, names)
    ensures Expand(after, n, active) == Expand(before, n, active)
    decreases |before.Keys - active|, 0, 0
  {
    var lib := before[n];
    Shrinks(before.Keys, active, lib.name);
    var inner := ExpandDeps(before, lib, lib.dependencies, active + {lib.name}).value;
    var events := Expand(before, n, active).value;
    assert forall i :: 0 <= i < |inner| ==> events[i + 1] == inner[i];
    ExpandDepsGrows(before, after, names, lib, lib.dependencies, active + {lib.name});
  }

  lemma {:induction false} ExpandDepsGrows(before: Libraries, after: Libraries, names: seq<string>, lib: Library,
                                           deps: seq<string>, active: set<string>)
    requires Canonical(before) && Canonical(after) && Grows(before, after, names)
    requires ExpandDeps(before, lib, deps, active).Some? &&
             NoLeafAmong(ExpandDeps(before, lib, deps, active).value, names)
    ensures ExpandDeps(after, lib, deps, active) == ExpandDeps(before, lib, deps, active)
    decreases |before.Keys - active|, 1, |deps|
  {
    if deps != [] {
      var d, events := deps[|deps| - 1], ExpandDeps(before, lib, deps, active).value;
      var front := ExpandDeps(before, lib, deps[..|deps| - 1], active).value;
      assert forall i :: 0 <= i < |front| ==> events[i] == front[i];
      ExpandDepsGrows(before, after, names, lib, deps[..|deps| - 1], active);
      if d in before {
        var part := Expand(before, d, active).value;
        assert forall i :: 0 <= i < |part| ==> events[|front| + i] == part[i];
        ExpandGrows(before, after, names, d, active);
      } else {
        assert events[|front|] == Leaf(lib, d);
      }
    }
  }

  ghost predicate Cyclic(libs: Libraries, n: string)
    requires n in libs
  {
    CycleReachable(DependencyGraph(libs), libs[n].name)
  }

  lemma ExpandIffAcyclic(libs: Libraries, n: string)
    requires Canonical(libs) && n in libs
    ensures Expand(libs, n, {}).Some? <==> !Cyclic(libs, n)
  {
    ExpandIffNoRepeat(libs, n, {});
    NoRepeatIffAcyclic(DependencyGraph(libs), libs[n].name);
  }

  // ----- What an expansion contributes -----

  function Gather(events: seq<Event>, pick: Event -> seq<string>): seq<string> {
    if events == [] then []
    else Gather(events[..|events| - 1], pick) + pick(events[|events| - 1])
  }

  lemma {:induction false} GatherConcat(a: seq<Event>, b: seq<Event>, pick: Event -> seq<string>)
    ensures Gather(a + b, pick) == Gather(a, pick) + Gather(b, pick)
  {
    if b == [] {
      assert a + b == a;
    } else {
      GatherConcat(a, b[..|b| - 1], pick);
      assert (a + b)[..|a + b| - 1] == a + b[..|b| - 1];
    }
  }

  function OwnField(f: Field): Event -> seq<string> {
    (e: Event) => if e.Enter? then Get(e.lib.interface', f) else []
  }

  const IMPLICIT_DEPENDENCIES := "${IREE_IMPLICIT_DEFS_CC_DEPS}"

  function Defaults(lib: Library): seq<string> {
    [IMPLICIT_DEPENDENCIES] +
    if lib.compiled != [] then ["${IREE_THREADS_DEPS}", "${IREE_DEFAULT_LINK_LIBRARIES}"] else []
  }

  function Options(lib: Library): seq<string> {
    if lib.compiled != [] && !lib.alwayslink then ["${IREE_INTERFACE_COPTS}"] else []
  }

  /** Names of native bindings, by package, dependencies and options. */
  type Binder = (string, seq<string>, seq<string>) -> string

  function NativeOf(bind: Binder): Event -> seq<string> {
    (e: Event) =>
      match e
      case Enter(_) => []
      case Leaf(lib, d) => [bind(lib.package, [d], [])]
      case Exit(lib) => [bind(lib.package, Defaults(lib), Options(lib))]
  }

  /** `i` is the deduplicated expansion of declaration `n`. */
  ghost predicate Meets(libs: Libraries, bind: Binder, n: string, i: Interface)
    requires Canonical(libs) && n in libs
  {
    var events := Expand(libs, n, {});
    && events.Some?
    && (forall f :: Get(i, f) == FromKeys(Gather(events.value, OwnField(f))))
    && i.native == FromKeys(Gather(events.value, NativeOf(bind)))
  }

  function Flatten(parts: seq<seq<string>>): seq<string> {
    if parts == [] then [] else Flatten(parts[..|parts| - 1]) + parts[|parts| - 1]
  }

  function DepEvents(libs: Libraries, lib: Library, d: string): Option<seq<Event>>
    requires Canonical(libs)
  {
    if d in libs then Expand(libs, d, {}) else Some([Leaf(lib, d)])
  }

  /** Each part is what the corresponding dependency contributes, already deduplicated. */
  ghost predicate PartsOk(libs: Libraries, lib: Library, deps: seq<string>, parts: seq<seq<string>>,
                          pick: Event -> seq<string>)
    requires Canonical(libs)
  {
    && |parts| == |deps|
    && forall j :: 0 <= j < |deps| ==>
         DepEvents(libs, lib, deps[j]).Some? && parts[j] == FromKeys(Gather(DepEvents(libs, lib, deps[j]).value, pick))
  }

  /** Deduplicated parts combine to the deduplicated whole. */
  lemma {:induction false} PartsGather(libs: Libraries, lib: Library, deps: seq<string>, active: set<string>,
                                       parts: seq<seq<string>>, pick: Event -> seq<string>, keys: seq<string>)
    requires Canonical(libs) && ExpandDeps(libs, lib, deps, active).Some? && PartsOk(libs, lib, deps, parts, pick)
    ensures Extend(keys, Flatten(parts)) == Extend(keys, Gather(ExpandDeps(libs, lib, deps, active).value, pick))
    decreases |deps|
  {
    if deps != [] {
      var init, d := deps[..|deps| - 1], deps[|deps| - 1];
      var front, last := parts[..|parts| - 1], parts[|parts| - 1];
      var before := ExpandDeps(libs, lib, init, active).value;
      PartsGather(libs, lib, init, active, front, pick, keys);
      if d in libs { ExpandShrink(libs, d, active, {}); }
      var events := DepEvents(libs, lib, d).value;
      assert last == FromKeys(Gather(events, pick));
      GatherConcat(before, events, pick);
      ExtendConcat(keys, Flatten(front), last);
      ExtendConcat(keys, Gather(before, pick), Gather(events, pick));
      ExtendDeduped(Extend(keys, Gather(before, pick)), Gather(events, pick));
    }
  }

  lemma WholeGather(lib: Library, inner: seq<Event>, pick: Event -> seq<string>)
    ensures Gather([Enter(lib)] + inner + [Exit(lib)], pick) == pick(Enter(lib)) + Gather(inner, pick) + pick(Exit(lib))
  {
    GatherConcat([Enter(lib)] + inner, [Exit(lib)], pick);
    GatherConcat([Enter(lib)], inner, pick);
    assert Gather([Enter(lib)], pick) == pick(Enter(lib));
    assert Gather([Exit(lib)], pick) == pick(Exit(lib));
  }

  /** The recursive equation the resolver computes by: own values, then each dependency's. */
  lemma ContributionStep(libs: Libraries, n: string, parts: seq<seq<string>>, pick: Event -> seq<string>)
    requires Canonical(libs) && n in libs && Expand(libs, n, {}).Some?
    requires PartsOk(libs, libs[n], libs[n].dependencies, parts, pick)
    ensures FromKeys(Gather(Expand(libs, n, {}).value, pick)) ==
            FromKeys(pick(Enter(libs[n])) + Flatten(parts) + pick(Exit(libs[n])))
  {
    var lib := libs[n];
    var inner := ExpandDeps(libs, lib, lib.dependencies, {} + {lib.name}).value;
    var first, last := pick(Enter(lib)), pick(Exit(lib));
    WholeGather(lib, inner, pick);
    PartsGather(libs, lib, lib.dependencies, {} + {lib.name}, parts, pick, FromKeys(first));
    hide ExpandDeps;
    hide Gather;
    ExtendConcat([], first, Flatten(parts));
    ExtendConcat([], first, Gather(inner, pick));
    ExtendConcat([], first + Flatten(parts), last);
    ExtendConcat([], first + Gather(inner, pick), last);
  }

  function Column(interfaces: seq<Interface>, f: Field): (r: seq<seq<string>>)
    ensures |r| == |interfaces| && forall j :: 0 <= j < |r| ==> r[j] == Get(interfaces[j], f)
  {
    if interfaces == [] then [] else Column(interfaces[..|interfaces| - 1], f) + [Get(interfaces[|interfaces| - 1], f)]
  }

  /** `Interface.with_dependencies`, for the fields merged by concatenation. */
  function WithDependencies(self: Interface, deps: seq<Interface>, native: seq<string>): Interface {
    Interface(FromKeys(self.includes + Flatten(Column(deps, Includes))),
              FromKeys(self.systemIncludes + Flatten(Column(deps, SystemIncludes))),
              FromKeys(self.defines + Flatten(Column(deps, Defines))),
              FromKeys(self.linkOptions + Flatten(Column(deps, LinkOptions))),
              native)
  }

  /** What resolving one dependency yields: its interface, or nothing for a native leaf. */
  ghost predicate MeetsDep(libs: Libraries, bind: Binder, d: string, i: Interface)
    requires Canonical(libs)
  {
    if d in libs then Meets(libs, bind, d, i) else i == BLANK
  }

  lemma LibraryMeets(libs: Libraries, bind: Binder, n: string, deps: seq<Interface>, natives: seq<seq<string>>,
                     native: seq<string>)
    requires Canonical(libs) && n in libs && !Cyclic(libs, n)
    requires |deps| == |libs[n].dependencies|
    requires forall j :: 0 <= j < |deps| ==> MeetsDep(libs, bind, libs[n].dependencies[j], deps[j])
    requires PartsOk(libs, libs[n], libs[n].dependencies, natives, NativeOf(bind))
    requires native ==
             FromKeys(FromKeys(Flatten(natives)) + [bind(libs[n].package, Defaults(libs[n]), Options(libs[n]))])
    ensures Meets(libs, bind, n, WithDependencies(libs[n].interface', deps, native))
  {
    ExpandIffAcyclic(libs, n);
    hide Cyclic, Expand, FromKeys, Gather, Flatten, Column, PartsOk, WithDependencies;
    var result := WithDependencies(libs[n].interface', deps, native);
    forall f ensures Get(result, f) == FromKeys(Gather(Expand(libs, n, {}).value, OwnField(f))) {
      FieldMeets(libs, bind, n, deps, native, f);
    }
    NativeMeets(libs, bind, n, natives);
    WithNative(libs[n].interface', deps, native);
  }

  lemma FieldMeets(libs: Libraries, bind: Binder, n: string, deps: seq<Interface>, native: seq<string>, f: Field)
    requires Canonical(libs) && n in libs && Expand(libs, n, {}).Some?
    requires |deps| == |libs[n].dependencies|
    requires forall j :: 0 <= j < |deps| ==> MeetsDep(libs, bind, libs[n].dependencies[j], deps[j])
    ensures Get(WithDependencies(libs[n].interface', deps, native), f) ==
            FromKeys(Gather(Expand(libs, n, {}).value, OwnField(f)))
  {
    hide Expand, FromKeys, Gather, Flatten, Column, PartsOk, MeetsDep;
    FieldParts(libs, bind, n, deps, f);
    ContributionStep(libs, n, Column(deps, f), OwnField(f));
    var own, rest := Get(libs[n].interface', f), Flatten(Column(deps, f));
    assert own + rest + [] == own + rest;
  }

  lemma NativeMeets(libs: Libraries, bind: Binder, n: string, natives: seq<seq<string>>)
    requires Canonical(libs) && n in libs && Expand(libs, n, {}).Some?
    requires PartsOk(libs, libs[n], libs[n].dependencies, natives, NativeOf(bind))
    ensures FromKeys(Gather(Expand(libs, n, {}).value, NativeOf(bind))) ==
            FromKeys(FromKeys(Flatten(natives)) + [bind(libs[n].package, Defaults(libs[n]), Options(libs[n]))])
  {
    ContributionStep(libs, n, natives, NativeOf(bind));
    hide Expand, FromKeys, Gather, Flatten, PartsOk, Defaults, Options;
    NativeAppend(Flatten(natives), bind(libs[n].package, Defaults(libs[n]), Options(libs[n])));
    assert [] + Flatten(natives) == Flatten(natives);
  }

  /** The binding a library contributes itself: sources bring threads and default libraries, and interface
      options unless the whole archive is linked. */
  lemma OwnBinding(libs: Libraries, bind: Binder, n: string, i: Interface)
    requires Canonical(libs) && n in libs && Meets(libs, bind, n, i)
    ensures var lib := libs[n];
            var leaves := ["${IREE_IMPLICIT_DEFS_CC_DEPS}", "${IREE_THREADS_DEPS}", "${IREE_DEFAULT_LINK_LIBRARIES}"];
            && (lib.compiled == [] ==> bind(lib.package, ["${IREE_IMPLICIT_DEFS_CC_DEPS}"], []) in i.native)
            && (lib.compiled != [] && lib.alwayslink ==> bind(lib.package, leaves, []) in i.native)
            && (lib.compiled != [] && !lib.alwayslink ==>
                  bind(lib.package, leaves, ["${IREE_INTERFACE_COPTS}"]) in i.native)
  {
    var lib, events := libs[n], Expand(libs, n, {}).value;
    var last := |events| - 1;
    assert events[last] == Exit(lib);
    var own := bind(lib.package, Defaults(lib), Options(lib));
    assert Gather(events, NativeOf(bind)) == Gather(events[..last], NativeOf(bind)) + [own];
    assert own in Gather(events, NativeOf(bind));
    if lib.compiled != [] {
      assert Defaults(lib) ==
             ["${IREE_IMPLICIT_DEFS_CC_DEPS}", "${IREE_THREADS_DEPS}", "${IREE_DEFAULT_LINK_LIBRARIES}"];
      assert Options(lib) == if lib.alwayslink then [] else ["${IREE_INTERFACE_COPTS}"];
    } else {
      assert Defaults(lib) == ["${IREE_IMPLICIT_DEFS_CC_DEPS}"] && Options(lib) == [];
    }
  }

  lemma WithNative(self: Interface, deps: seq<Interface>, native: seq<string>)
    ensures WithDependencies(self, deps, native).native == native
  {}

  lemma NativeAppend(s: seq<string>, x: string)
    ensures FromKeys(FromKeys(s) + [x]) == FromKeys(s + [x])
  {
    FromKeysConcat(s, [x]);
    FromKeysOne(x);
  }

  lemma FieldParts(libs: Libraries, bind: Binder, n: string, deps: seq<Interface>, f: Field)
    requires Canonical(libs) && n in libs && |deps| == |libs[n].dependencies|
    requires forall j :: 0 <= j < |deps| ==> MeetsDep(libs, bind, libs[n].dependencies[j], deps[j])
    ensures PartsOk(libs, libs[n], libs[n].dependencies, Column(deps, f), OwnField(f))
  {
    hide Expand;
    forall j | 0 <= j < |deps|
      ensures DepEvents(libs, libs[n], libs[n].dependencies[j]).Some?
      ensures Column(deps, f)[j] ==
              FromKeys(Gather(DepEvents(libs, libs[n], libs[n].dependencies[j]).value, OwnField(f)))
    {
      var d := libs[n].dependencies[j];
      assert MeetsDep(libs, bind, d, deps[j]);
      if d !in libs {
        assert Gather([Leaf(libs[n], d)], OwnField(f)) == [];
      }
    }
  }
}
