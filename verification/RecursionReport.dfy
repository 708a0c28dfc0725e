/** The recursion report: one error with a witness cycle for each recursive component. */
module RecursionReport {
  import opened Optional
  import opened Digraph
  import opened Sequences
  import opened CallGraph
  import opened Components
  import opened WitnessCycle

  // ----- Orders -----

  predicate PointLeq(a: SourcePoint, b: SourcePoint) {
    if a.file != b.file then Leq(a.file, b.file)
    else a.line < b.line || (a.line == b.line && a.column <= b.column)
  }

  predicate PointLess(a: SourcePoint, b: SourcePoint) {
    PointLeq(a, b) && a != b
  }

  lemma PointOrder(a: SourcePoint, b: SourcePoint, c: SourcePoint)
    ensures PointLeq(a, b) || PointLeq(b, a)
    ensures PointLeq(a, b) && PointLeq(b, a) ==> a == b
    ensures PointLeq(a, b) && PointLeq(b, c) ==> PointLeq(a, c)
  {
    LeqTotal(a.file, b.file);
    LeqTotal(b.file, c.file);
    if Leq(a.file, b.file) && Leq(b.file, c.file) { LeqTrans(a.file, b.file, c.file); }
  }

  /** Callee, then call site, then directness, then dispatcher name. */
  predicate CallLeq(a: Call, b: Call) {
    if a.callee != b.callee then Leq(a.callee, b.callee)
    else if a.point != b.point then PointLeq(a.point, b.point)
    else if a.indirect != b.indirect then !a.indirect
    else Leq(DispatcherName(a), DispatcherName(b))
  }

  function DispatcherName(c: Call): string {
    match c.dispatcher case Some(name) => name case None => ""
  }

  lemma CallOrder(a: Call, b: Call, c: Call)
    ensures CallLeq(a, b) || CallLeq(b, a)
    ensures CallLeq(a, b) && CallLeq(b, c) ==> CallLeq(a, c)
  {
    hide Leq, PointLeq;
    NameOrder(a.callee, b.callee, c.callee);
    NameOrder(DispatcherName(a), DispatcherName(b), DispatcherName(c));
    PointOrder(a.point, b.point, c.point);
  }

  lemma NameOrder(a: string, b: string, c: string)
    ensures Leq(a, b) || Leq(b, a)
    ensures Leq(a, b) && Leq(b, a) ==> a == b
    ensures Leq(a, b) && Leq(b, c) ==> Leq(a, c)
  {
    LeqTotal(a, b);
    if Leq(a, b) && Leq(b, c) { LeqTrans(a, b, c); }
  }

  lemma CallPreorder()
    ensures Preorder(CallLeq)
  {
    hide CallLeq;
    forall a, b ensures CallLeq(a, b) || CallLeq(b, a) { CallOrder(a, b, b); }
    forall a, b, c | CallLeq(a, b) && CallLeq(b, c) ensures CallLeq(a, c) { CallOrder(a, b, c); }
  }

  // ----- Definitions -----

  ghost predicate Collides(functions: seq<Function>) {
    exists f, h :: f in functions && h in functions && f.id == h.id && f.name != h.name
  }

  /** Each defined id keeps its definition at the smallest source point. */
  ghost predicate DefinitionsOf(functions: seq<Function>, defs: map<string, Function>) {
    && (forall f :: f in functions ==> f.id in defs && PointLeq(defs[f.id].point, f.point))
    && (forall id :: id in defs ==> defs[id] in functions && defs[id].id == id)
  }

  method CollectDefinitions(functions: seq<Function>) returns (defs: Option<map<string, Function>>)
    ensures defs.None? <==> Collides(functions)
    ensures defs.Some? ==> DefinitionsOf(functions, defs.value)
  {
    var d: map<string, Function> := map[];
    for k := 0 to |functions|
      invariant DefinitionsOf(functions[..k], d)
      invariant forall f :: f in functions[..k] ==> f.name == d[f.id].name
    {
      var f := functions[k];
      assert f in functions;
      ghost var before := functions[..k];
      assert functions[..k + 1] == before + [f];
      assert forall h :: h in before ==> h in functions;
      if f.id in d && d[f.id].name != f.name {
        return None;
      }
      if f.id !in d || PointLess(f.point, d[f.id].point) {
        ghost var earlier := d;
        d := d[f.id := f];
        forall h | h in functions[..k + 1] ensures h.id in d && PointLeq(d[h.id].point, h.point) {
          if h in before && h.id == f.id { PointOrder(f.point, earlier[f.id].point, h.point); }
          if h == f { PointOrder(f.point, f.point, f.point); }
        }
      } else {
        PointOrder(f.point, d[f.id].point, f.point);
      }
    }
    assert functions[..|functions|] == functions;
    return Some(d);
  }

  /** The first defined member at the smallest source point. */
  function Earliest(component: seq<string>, defs: map<string, Function>): (r: Option<Function>)
    ensures r.None? <==> forall n :: n in component ==> n !in defs
    ensures r.Some? ==>
              && (exists n :: n in component && n in defs && defs[n] == r.value)
              && (forall n :: n in component && n in defs ==> PointLeq(r.value.point, defs[n].point))
  {
    if component == [] then None
    else
      var init, last := component[..|component| - 1], component[|component| - 1];
      assert component == init + [last];
      var best := Earliest(init, defs);
      PointPreorder();
      if last !in defs then best
      else if best.None? || PointLess(defs[last].point, best.value.point) then Some(defs[last])
      else PointOrder(defs[last].point, best.value.point, best.value.point); best
  }

  /** The representative comes first: by file, then line, then column. */
  lemma EarliestComesFirst(component: seq<string>, defs: map<string, Function>, n: string)
    requires n in component && n in defs
    ensures var f := Earliest(component, defs);
            && f.Some? && Leq(f.value.point.file, defs[n].point.file)
            && (f.value.point.file == defs[n].point.file ==> f.value.point.line <= defs[n].point.line)
            && (f.value.point.file == defs[n].point.file && f.value.point.line == defs[n].point.line ==>
                  f.value.point.column <= defs[n].point.column)
  {
    LeqTotal(defs[n].point.file, defs[n].point.file);
  }

  lemma PointPreorder()
    ensures Preorder(PointLeq)
  {
    forall a, b ensures PointLeq(a, b) || PointLeq(b, a) { PointOrder(a, b, b); }
    forall a, b, c | PointLeq(a, b) && PointLeq(b, c) ensures PointLeq(a, c) { PointOrder(a, b, c); }
  }

  // ----- Grouped calls -----

  method GroupCalls(calls: seq<Call>) returns (outgoing: CallLists, selfRecursive: set<string>)
    ensures ListsCalls(outgoing, calls) && AllSorted(outgoing)
    ensures forall n :: n in selfRecursive <==> Calls(calls, n, n)
  {
    hide SortLists, AllSorted;
    outgoing, selfRecursive := map[], {};
    for k := 0 to |calls|
      invariant ListsCalls(outgoing, calls[..k])
      invariant forall n :: n in selfRecursive <==> Calls(calls[..k], n, n)
    {
      var c := calls[k];
      ghost var before, lists := calls[..k], outgoing;
      assert calls[..k + 1] == before + [c];
      outgoing := outgoing[c.caller := Out(outgoing, c.caller) + [c]];
      AppendListed(lists, before, c);
      if c.caller == c.callee {
        selfRecursive := selfRecursive + {c.caller};
      }
      forall n ensures Calls(before + [c], n, n) <==> Calls(before, n, n) || (c.caller == n && c.callee == n) {
        assert c in before + [c];
        if d :| d in before && d.caller == n && d.callee == n { assert d in before + [c]; }
      }
    }
    assert calls[..|calls|] == calls;
    SortListsLists(outgoing, calls);
    SortListsSorts(outgoing);
    outgoing := SortLists(outgoing);
  }

  lemma AppendListed(outgoing: CallLists, calls: seq<Call>, c: Call)
    requires ListsCalls(outgoing, calls)
    ensures ListsCalls(outgoing[c.caller := Out(outgoing, c.caller) + [c]], calls + [c])
  {
    var after := outgoing[c.caller := Out(outgoing, c.caller) + [c]];
    forall n, d ensures d in Out(after, n) <==> d in calls + [c] && d.caller == n {
      assert d in Out(outgoing, n) <==> d in calls && d.caller == n;
      assert Out(after, n) == if n == c.caller then Out(outgoing, n) + [c] else Out(outgoing, n);
    }
  }

  /** The calls of a function come by callee, then call site, then direct before indirect, then dispatcher. */
  lemma CallsInOrder(outgoing: CallLists, n: string, i: nat, j: nat)
    requires AllSorted(outgoing) && n in outgoing && i < j < |outgoing[n]|
    ensures var a, b := outgoing[n][i], outgoing[n][j];
            && Leq(a.callee, b.callee)
            && (a.callee == b.callee ==> Leq(a.point.file, b.point.file))
            && (a.callee == b.callee && a.point.file == b.point.file ==> a.point.line <= b.point.line)
            && (a.callee == b.callee && a.point == b.point ==> !a.indirect || b.indirect)
            && (a.callee == b.callee && a.point == b.point && a.indirect == b.indirect ==>
                  Leq(DispatcherName(a), DispatcherName(b)))
  {
    var a, b := outgoing[n][i], outgoing[n][j];
    assert CallLeq(a, b);
    LeqTotal(a.callee, a.callee);
    LeqTotal(a.point.file, a.point.file);
  }

  function SortLists(outgoing: CallLists): CallLists {
    map n | n in outgoing :: Sort(outgoing[n], CallLeq)
  }

  ghost predicate AllSorted(outgoing: CallLists) {
    forall n :: n in outgoing ==> SortedBy(outgoing[n], CallLeq)
  }

  lemma SortListsSorts(outgoing: CallLists)
    ensures AllSorted(SortLists(outgoing))
  {
    hide CallLeq, SortedBy;
    CallPreorder();
    forall n | n in outgoing ensures SortedBy(SortLists(outgoing)[n], CallLeq) {
      SortSorted(outgoing[n], CallLeq);
    }
  }

  lemma SortListsLists(outgoing: CallLists, calls: seq<Call>)
    requires ListsCalls(outgoing, calls)
    ensures ListsCalls(SortLists(outgoing), calls)
  {
    var sorted := SortLists(outgoing);
    forall n, c ensures c in Out(sorted, n) <==> c in Out(outgoing, n) {
      if n in outgoing { SameElements(outgoing[n], Sort(outgoing[n], CallLeq)); }
    }
    assert forall n, c :: c in Out(sorted, n) <==> c in calls && c.caller == n;
  }

  // ----- The report -----

  /** One error line followed by a note for each call of the witness cycle. */
  datatype Diagnostic = Diagnostic(point: SourcePoint, crossUnit: bool, size: nat, notes: seq<Note>)

  datatype Note = ThroughDispatcher(call: Call, dispatcher: string) | IndirectCall(call: Call) | DirectCall(call: Call)

  function NoteFor(c: Call): (n: Note)
    ensures n.call == c && NoteFits(n)
  {
    if c.indirect && c.dispatcher.Some? && c.dispatcher.value != "" then ThroughDispatcher(c, c.dispatcher.value)
    else if c.indirect then IndirectCall(c)
    else DirectCall(c)
  }

  function NotedCalls(notes: seq<Note>): (r: seq<Call>)
    ensures |r| == |notes| && forall i :: 0 <= i < |r| ==> r[i] == notes[i].call
  {
    if notes == [] then [] else [notes[0].call] + NotedCalls(notes[1..])
  }

  function NotesFor(cycle: seq<Call>): (r: seq<Note>)
    ensures NotedCalls(r) == cycle && forall i :: 0 <= i < |r| ==> r[i] == NoteFor(cycle[i])
  {
    if cycle == [] then [] else
      var r := [NoteFor(cycle[0])] + NotesFor(cycle[1..]);
      assert NotedCalls(r) == cycle;
      r
  }

  function ComponentKey(component: seq<string>, defs: map<string, Function>): SourcePoint {
    match Earliest(component, defs) case Some(f) => f.point case None => SourcePoint("", 0, 0)
  }

  function ComponentLeq(defs: map<string, Function>): (seq<string>, seq<string>) -> bool {
    (a: seq<string>, b: seq<string>) => PointLeq(ComponentKey(a, defs), ComponentKey(b, defs))
  }

  /** A note says through what the call goes: a named dispatcher, a pointer, or directly. */
  ghost predicate NoteFits(n: Note) {
    match n
    case ThroughDispatcher(c, dispatcher) => c.indirect && c.dispatcher == Some(dispatcher) && dispatcher != ""
    case IndirectCall(c) => c.indirect && (c.dispatcher == None || c.dispatcher == Some(""))
    case DirectCall(c) => !c.indirect
  }

  /** Components come in the order of their earliest definitions; one without any counts as the empty point. */
  ghost predicate InSourceOrder(reported: seq<seq<string>>, defs: map<string, Function>) {
    forall i, j :: 0 <= i < j < |reported| ==>
      match (Earliest(reported[i], defs), Earliest(reported[j], defs)) {
        case (Some(f), Some(h)) => PointLeq(f.point, h.point)
        case (Some(f), None) => PointLeq(f.point, SourcePoint("", 0, 0))
        case (None, Some(h)) => PointLeq(SourcePoint("", 0, 0), h.point)
        case (None, None) => true
      }
  }

  lemma SortedInOrder(reported: seq<seq<string>>, defs: map<string, Function>)
    requires SortedBy(reported, ComponentLeq(defs))
    ensures InSourceOrder(reported, defs)
  {
    hide Earliest, PointLeq;
  }

  /** The diagnostic names the earliest definition, the size, the spread and a genuine cycle. */
  ghost predicate Describes(calls: seq<Call>, defs: map<string, Function>, component: seq<string>, d: Diagnostic) {
    && d.size == |component| && d.notes != []
    && IsWitness(calls, NotedCalls(d.notes), d.notes[0].call.caller, ToSet(component))
    && (forall i :: 0 <= i < |d.notes| ==> NoteFits(d.notes[i]))
    && (d.crossUnit <==>
        exists m, n :: m in component && n in component && m in defs && n in defs &&
            defs[m].point.file != defs[n].point.file)
    && match Earliest(component, defs)
       case Some(f) => d.point == f.point && d.notes[0].call.caller == f.id
       case None => d.point == d.notes[0].call.point && d.notes[0].call.caller == component[0]
  }

  /** The reported components are exactly the strongly connected components that hold a cycle. */
  ghost predicate ReportsCycles(g: Graph, reported: seq<seq<string>>) {
    && Distinct(reported)
    && (forall c :: c in reported ==> IsComponent(g, c) && Recursive(g, c))
    && (forall c, d, x :: c in reported && d in reported && x in c && x in d ==> c == d)
    && (forall n :: Leads(g, n, n) <==> exists c :: c in reported && n in c)
  }

  lemma RecursiveMembers(g: Graph, component: seq<string>, n: string)
    requires IsComponent(g, component) && n in component
    ensures Leads(g, n, n) <==> Recursive(g, component)
  {
    if Recursive(g, component) {
      var y := HasInnerCallee(g, component, n);
      assert Mutual(g, n, y);
    } else if Leads(g, n, n) {
      var c :| Edge(g, n, c) && Reach(g, c, n);
      ReachEdge(g, n, c);
      assert n in component && component == [component[0]];
      assert Mutual(g, n, c);
    }
  }

  method SelectRecursive(ghost calls: seq<Call>, components: seq<seq<string>>, selfRecursive: set<string>)
    returns (selected: seq<seq<string>>)
    requires IsPartition(CallMap(calls), components)
    requires forall n :: n in selfRecursive <==> Calls(calls, n, n)
    ensures ReportsCycles(CallMap(calls), selected)
  {
    hide IsComponent, Leads, CallMap, Calls, Edge, Closed;
    ghost var g := CallMap(calls);
    SelfCalls(calls, selfRecursive);
    selected := [];
    for k := 0 to |components|
      invariant Distinct(selected)
      invariant forall c :: c in selected ==> exists i :: 0 <= i < k && components[i] == c
      invariant forall i :: 0 <= i < k ==> (components[i] in selected <==> Recursive(g, components[i]))
      invariant forall c :: c in selected ==> Recursive(g, c)
    {
      var c := components[k];
      ComponentShape(g, c);
      assert c !in selected by {
        assert forall i :: 0 <= i < k ==> c[0] !in components[i];
      }
      if |c| > 1 || (c != [] && c[0] in selfRecursive) {
        DistinctAppend(selected, c);
        selected := selected + [c];
      }
    }
    SelectedReports(g, components, selected);
  }

  lemma SelfCalls(calls: seq<Call>, selfRecursive: set<string>)
    requires forall n :: n in selfRecursive <==> Calls(calls, n, n)
    ensures Closed(CallMap(calls)) && forall n :: n in selfRecursive <==> Edge(CallMap(calls), n, n)
  {
    CallMapIsGraph(calls);
  }

  lemma ComponentShape(g: Graph, c: seq<string>)
    requires IsComponent(g, c)
    ensures c != []
  {}

  lemma SelectedReports(g: Graph, components: seq<seq<string>>, selected: seq<seq<string>>)
    requires Closed(g) && IsPartition(g, components) && Distinct(selected)
    requires forall c :: c in selected ==> exists i :: 0 <= i < |components| && components[i] == c
    requires forall i :: 0 <= i < |components| ==> (components[i] in selected <==> Recursive(g, components[i]))
    ensures ReportsCycles(g, selected)
  {
    hide IsComponent;
    hide Recursive;
    forall n ensures Leads(g, n, n) <==> exists c :: c in selected && n in c {
      if Leads(g, n, n) {
        assert n in g;
        var k :| 0 <= k < |components| && n in components[k];
        RecursiveMembers(g, components[k], n);
      }
      if c :| c in selected && n in c { RecursiveMembers(g, c, n); }
    }
    hide Leads;
  }

  lemma SortedReports(g: Graph, selected: seq<seq<string>>, leq: (seq<string>, seq<string>) -> bool)
    requires ReportsCycles(g, selected)
    ensures ReportsCycles(g, Sort(selected, leq)) && |Sort(selected, leq)| == |selected|
  {
    var sorted := Sort(selected, leq);
    SortDistinct(selected, leq);
    SameElements(selected, sorted);
    SameReports(g, selected, sorted);
  }

  lemma SameReports(g: Graph, selected: seq<seq<string>>, sorted: seq<seq<string>>)
    requires ReportsCycles(g, selected) && Distinct(sorted)
    requires forall c :: c in selected <==> c in sorted
    ensures ReportsCycles(g, sorted)
  {
    hide IsComponent;
    hide Recursive;
    hide Leads;
    forall n ensures Leads(g, n, n) <==> exists c :: c in sorted && n in c {
      if c :| c in selected && n in c { assert c in sorted; }
      if c :| c in sorted && n in c { assert c in selected; }
    }
  }

  lemma ComponentPreorder(defs: map<string, Function>)
    ensures Preorder(ComponentLeq(defs))
  {
    PointPreorder();
  }

  function DefinitionFiles(component: seq<string>, defs: map<string, Function>): set<string> {
    set n | n in component && n in defs :: defs[n].point.file
  }

  method Diagnose(ghost calls: seq<Call>, defs: map<string, Function>, component: seq<string>, outgoing: CallLists)
    returns (d: Diagnostic)
    requires ListsCalls(outgoing, calls)
    requires forall id :: id in defs ==> defs[id].id == id
    requires IsComponent(CallMap(calls), component) && Recursive(CallMap(calls), component)
    ensures Describes(calls, defs, component, d)
  {
    hide IsComponent;
    hide IsWitness;
    hide CallMap;
    hide Recursive;
    ComponentShape(CallMap(calls), component);
    var representative := Earliest(component, defs);
    var start := if representative.Some? then representative.value.id else component[0];
    var cycle := RepresentativeCycle(calls, start, component, outgoing);
    var point := if representative.Some? then representative.value.point else cycle[0].point;
    var files := DefinitionFiles(component, defs);
    SeveralFiles(component, defs);
    WitnessShape(calls, cycle, start, ToSet(component));
    d := Diagnostic(point, |files| > 1, |component|, NotesFor(cycle));
  }

  lemma WitnessShape(calls: seq<Call>, cycle: seq<Call>, start: string, members: set<string>)
    requires IsWitness(calls, cycle, start, members)
    ensures cycle != [] && cycle[0].caller == start
  {}

  lemma SeveralFiles(component: seq<string>, defs: map<string, Function>)
    ensures |DefinitionFiles(component, defs)| > 1 <==>
            exists m, n :: m in component && n in component && m in defs && n in defs &&
                defs[m].point.file != defs[n].point.file
  {
    var files := DefinitionFiles(component, defs);
    if m, n :| m in component && n in component && m in defs && n in defs && defs[m].point.file != defs[n].point.file {
      var pair := {defs[m].point.file, defs[n].point.file};
      assert pair <= files && |files - pair| == |files| - |pair|;
    } else if files != {} {
      var f :| f in files;
      assert files == {f};
    }
  }

  /**
   No diagnostic exactly when the call graph is acyclic; otherwise one per recursive component,
   ordered by earliest definition. Two functions with one id and two names stop the report.
   */
  method FormatDiagnostics(functions: seq<Function>, calls: seq<Call>)
    returns (report: Option<seq<Diagnostic>>, ghost defs: map<string, Function>, ghost reported: seq<seq<string>>)
    ensures report.None? <==> Collides(functions)
    ensures report.Some? ==>
              && DefinitionsOf(functions, defs) && ReportsCycles(CallMap(calls), reported)
              && |report.value| == |reported|
              && (forall k :: 0 <= k < |reported| ==> Describes(calls, defs, reported[k], report.value[k]))
              && InSourceOrder(reported, defs)
              && (report.value == [] <==> forall n :: !Leads(CallMap(calls), n, n))
  {
    hide *;
    var definitions := CollectDefinitions(functions);
    if definitions.None? {
      return None, map[], [];
    }
    var d := definitions.value;
    defs := d;
    var outgoing, selfRecursive := GroupCalls(calls);
    var components := StronglyConnectedComponents(calls);
    var selected := SelectRecursive(calls, components, selfRecursive);
    SortedReports(CallMap(calls), selected, ComponentLeq(d));
    ComponentPreorder(d);
    SortSorted(selected, ComponentLeq(d));
    selected := Sort(selected, ComponentLeq(d));
    SortedInOrder(selected, d);
    reported := selected;
    DefinitionIds(functions, d);
    var diagnostics: seq<Diagnostic> := [];
    for k := 0 to |selected|
      invariant |diagnostics| == k
      invariant forall i :: 0 <= i < k ==> Describes(calls, d, selected[i], diagnostics[i])
    {
      ReportedComponent(CallMap(calls), selected, k);
      var diagnostic := Diagnose(calls, d, selected[k], outgoing);
      diagnostics := diagnostics + [diagnostic];
    }
    report := Some(diagnostics);
    EmptyReport(CallMap(calls), reported);
  }

  lemma DefinitionIds(functions: seq<Function>, defs: map<string, Function>)
    requires DefinitionsOf(functions, defs)
    ensures forall id :: id in defs ==> defs[id].id == id
  {}

  lemma ReportedComponent(g: Graph, reported: seq<seq<string>>, k: nat)
    requires ReportsCycles(g, reported) && k < |reported|
    ensures IsComponent(g, reported[k]) && Recursive(g, reported[k])
  {}

  lemma EmptyReport(g: Graph, reported: seq<seq<string>>)
    requires ReportsCycles(g, reported)
    ensures reported == [] <==> forall n :: !Leads(g, n, n)
  {
    hide Leads;
    if reported != [] {
      var c := reported[0];
      assert c in reported && c[0] in c;
      assert Leads(g, c[0], c[0]);
    }
  }
}
