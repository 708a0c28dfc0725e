/** Call summaries and the dictionaries the recursion detector builds from them. */
module CallGraph {
  import opened Optional
  import opened Digraph
  import opened Sequences

  datatype SourcePoint = SourcePoint(file: string, line: nat, column: nat)

  datatype Function = Function(id: string, name: string, point: SourcePoint)

  datatype Call = Call(caller: string, callee: string, callerName: string, calleeName: string,
                       point: SourcePoint, indirect: bool, dispatcher: Option<string>)

  ghost predicate Calls(calls: seq<Call>, a: string, b: string) {
    exists c :: c in calls && c.caller == a && c.callee == b
  }

  function Nodes(calls: seq<Call>): set<string> {
    (set c | c in calls :: c.caller) + (set c | c in calls :: c.callee)
  }

  /** `g` is the call graph: its keys are the nodes and its edges are the calls. */
  ghost predicate IsGraphOf(g: Graph, calls: seq<Call>) {
    && g.Keys == Nodes(calls)
    && forall a, b :: Edge(g, a, b) <==> Calls(calls, a, b)
  }

  ghost predicate Reverses(h: Graph, g: Graph) {
    && h.Keys == g.Keys
    && forall a, b :: Edge(h, b, a) <==> Edge(g, a, b)
  }

  /** Every edge of `g` ends on a key. */
  ghost predicate Closed(g: Graph) {
    forall a, b :: Edge(g, a, b) ==> b in g
  }

  function SortTargets(g: Graph): (r: Graph) {
    map n | n in g :: Sort(g[n], Leq)
  }

  lemma SortTargetsKeepsEdges(g: Graph)
    ensures SortTargets(g).Keys == g.Keys
    ensures forall a, b :: Edge(SortTargets(g), a, b) <==> Edge(g, a, b)
  {
    forall a, b ensures Edge(SortTargets(g), a, b) <==> Edge(g, a, b) {
      if a in g { SameElements(g[a], Sort(g[a], Leq)); }
    }
  }

  ghost predicate EdgesAre(g: Graph, calls: seq<Call>, reversed: bool) {
    forall a, b :: (if reversed then Edge(g, b, a) else Edge(g, a, b)) <==> Calls(calls, a, b)
  }

  lemma AppendCall(g: Graph, calls: seq<Call>, c: Call, reversed: bool)
    requires EdgesAre(g, calls, reversed)
    requires (if reversed then c.callee else c.caller) in g
    ensures var n, t := if reversed then c.callee else c.caller, if reversed then c.caller else c.callee;
            EdgesAre(g[n := g[n] + [t]], calls + [c], reversed)
  {
    forall a, b ensures Calls(calls + [c], a, b) <==> Calls(calls, a, b) || (c.caller == a && c.callee == b) {
      assert c in calls + [c];
      if d :| d in calls && d.caller == a && d.callee == b { assert d in calls + [c]; }
    }
    hide Calls;
    var n, t := if reversed then c.callee else c.caller, if reversed then c.caller else c.callee;
    AppendTarget(g, n, t);
    hide Edge;
  }

  lemma AppendTarget(g: Graph, n: string, t: string)
    requires n in g
    ensures forall a, b :: Edge(g[n := g[n] + [t]], a, b) <==> Edge(g, a, b) || (a == n && b == t)
  {
    var h := g[n := g[n] + [t]];
    forall a, b ensures Edge(h, a, b) <==> Edge(g, a, b) || (a == n && b == t) {
      if a == n { assert h[a] == g[n] + [t]; }
    }
  }

  lemma EndpointsAreNodes(calls: seq<Call>, c: Call)
    requires c in calls
    ensures c.caller in Nodes(calls) && c.callee in Nodes(calls)
  {}

  method BuildAdjacency(calls: seq<Call>) returns (nodes: seq<string>, outgoing: Graph, incoming: Graph)
    ensures Distinct(nodes) && ToSet(nodes) == Nodes(calls) && SortedBy(nodes, Leq)
    ensures IsGraphOf(outgoing, calls) && Reverses(incoming, outgoing) && Closed(outgoing)
  {
    hide EdgesAre, Edge, Calls, SortTargets, IsGraphOf, Reverses, Closed;
    nodes := SortedNames(Nodes(calls));
    outgoing := map n | n in Nodes(calls) :: [];
    incoming := map n | n in Nodes(calls) :: [];
    NoCalls(outgoing);
    NoCalls(incoming);
    for k := 0 to |calls|
      invariant outgoing.Keys == Nodes(calls) == incoming.Keys
      invariant EdgesAre(outgoing, calls[..k], false) && EdgesAre(incoming, calls[..k], true)
    {
      hide Nodes;
      var c := calls[k];
      assert c in calls;
      EndpointsAreNodes(calls, c);
      PrefixStep(calls, k);
      AppendCall(outgoing, calls[..k], c, false);
      AppendCall(incoming, calls[..k], c, true);
      outgoing := outgoing[c.caller := outgoing[c.caller] + [c.callee]];
      incoming := incoming[c.callee := incoming[c.callee] + [c.caller]];
    }
    assert calls[..|calls|] == calls;
    AdjacencyDone(calls, outgoing, incoming);
    outgoing, incoming := SortTargets(outgoing), SortTargets(incoming);
  }

  lemma AdjacencyDone(calls: seq<Call>, outgoing: Graph, incoming: Graph)
    requires outgoing.Keys == Nodes(calls) == incoming.Keys
    requires EdgesAre(outgoing, calls, false) && EdgesAre(incoming, calls, true)
    ensures IsGraphOf(SortTargets(outgoing), calls)
    ensures Reverses(SortTargets(incoming), SortTargets(outgoing)) && Closed(SortTargets(outgoing))
  {
    SortTargetsKeepsEdges(outgoing);
    SortTargetsKeepsEdges(incoming);
    CalleesAreNodes(calls);
    hide Edge;
    hide Calls;
  }

  lemma NoCalls(g: Graph)
    requires forall n :: n in g ==> g[n] == []
    ensures EdgesAre(g, [], false) && EdgesAre(g, [], true)
  {}

  lemma CalleesAreNodes(calls: seq<Call>)
    ensures forall a, b :: Calls(calls, a, b) ==> b in Nodes(calls)
  {}

  /** The call graph itself: each node with its callees in summary order. */
  function CallMap(calls: seq<Call>): (g: Graph) {
    map n | n in Nodes(calls) :: Callees(calls, n)
  }

  function Callees(calls: seq<Call>, n: string): (r: seq<string>)
    ensures forall b :: b in r <==> Calls(calls, n, b)
  {
    if calls == [] then []
    else
      assert calls == calls[..|calls| - 1] + [calls[|calls| - 1]];
      var c, rest := calls[|calls| - 1], Callees(calls[..|calls| - 1], n);
      if c.caller == n then rest + [c.callee] else rest
  }

  lemma CallMapIsGraph(calls: seq<Call>)
    ensures IsGraphOf(CallMap(calls), calls) && Closed(CallMap(calls))
  {}

  lemma SameEdgesSameReach(g: Graph, h: Graph)
    requires forall a, b :: Edge(g, a, b) <==> Edge(h, a, b)
    ensures forall a, b :: Reach(g, a, b) <==> Reach(h, a, b)
  {
    forall a, b ensures Reach(g, a, b) <==> Reach(h, a, b) {
      if p :| Joins(g, p, a, b) { assert Joins(h, p, a, b); }
      if p :| Joins(h, p, a, b) { assert Joins(g, p, a, b); }
    }
  }
}
