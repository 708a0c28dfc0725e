/** The witness cycle of a recursive component: a breadth-first search back to its start. */
module WitnessCycle {
  import opened Optional
  import opened Digraph
  import opened Sequences
  import opened CallGraph
  import opened Components

  type CallLists = map<string, seq<Call>>

  function Out(outgoing: CallLists, n: string): seq<Call> {
    if n in outgoing then outgoing[n] else []
  }

  ghost predicate ListsCalls(outgoing: CallLists, calls: seq<Call>) {
    forall n, c :: c in Out(outgoing, n) <==> c in calls && c.caller == n
  }

  /** Consecutive calls from `a` to `b`. */
  ghost predicate IsWalk(w: seq<Call>, a: string, b: string) {
    if w == [] then a == b else
      && w[0].caller == a && w[|w| - 1].callee == b
      && forall i, j :: 0 <= i && j == i + 1 < |w| ==> w[i].callee == w[j].caller
  }

  /** A simple cycle of real calls through `start`, inside `members`. */
  ghost predicate IsWitness(calls: seq<Call>, cycle: seq<Call>, start: string, members: set<string>) {
    && cycle != [] && IsWalk(cycle, start, start)
    && (forall i :: 0 <= i < |cycle| ==> cycle[i] in calls && cycle[i].caller in members)
    && (forall i, j :: 0 <= i < j < |cycle| ==> cycle[i].caller != cycle[j].caller)
  }

  ghost predicate Recursive(g: Graph, component: seq<string>) {
    |component| > 1 || (component != [] && Edge(g, component[0], component[0]))
  }

  // ----- The search -----

  /** Every reached node carries the call that discovered it, one step nearer to `source`. */
  ghost predicate Discovered(calls: seq<Call>, members: set<string>, source: string,
                             found: map<string, Option<Call>>, dist: map<string, nat>) {
    && found.Keys == dist.Keys && found.Keys <= members
    && source in found && found[source] == None && dist[source] == 0
    && forall x :: x in found && x != source ==>
         && found[x].Some?
         && var c := found[x].value;
            c in calls && c.callee == x && c.caller in dist && dist[x] == dist[c.caller] + 1
  }

  /** All member callees of `x` have been reached, at most one step further away. */
  ghost predicate Expanded(g: Graph, members: set<string>, dist: map<string, nat>, x: string)
    requires x in dist
  {
    forall y :: y in members && Edge(g, x, y) ==> y in dist && dist[y] <= dist[x] + 1
  }

  /** The queue is in distance order, and what has left it is expanded, except `current`. */
  ghost predicate Frontier(g: Graph, members: set<string>, dist: map<string, nat>, queue: seq<string>,
                           level: nat, current: set<string>) {
    && (forall i :: 0 <= i < |queue| ==> queue[i] in dist && level <= dist[queue[i]])
    && (forall i, j :: 0 <= i < j < |queue| ==> dist[queue[i]] <= dist[queue[j]])
    && (forall x :: x in dist ==> dist[x] <= level + 1)
    && (forall x :: x in dist && x !in queue && x !in current ==> Expanded(g, members, dist, x))
  }

  lemma Discover(g: Graph, calls: seq<Call>, members: set<string>, source: string,
                 found: map<string, Option<Call>>, dist: map<string, nat>, queue: seq<string>, node: string, c: Call)
    requires Discovered(calls, members, source, found, dist) && node in dist
    requires Frontier(g, members, dist, queue, dist[node], {node})
    requires c in calls && c.caller == node && c.callee in members && c.callee !in found
    ensures var dist' := dist[c.callee := dist[node] + 1];
            && Discovered(calls, members, source, found[c.callee := Some(c)], dist')
            && Frontier(g, members, dist', queue + [c.callee], dist[node], {node})
  {
    DiscoverCall(calls, members, source, found, dist, node, c);
    DiscoverFrontier(g, members, dist, queue, node, c.callee) by { hide Discovered; }
  }

  lemma DiscoverCall(calls: seq<Call>, members: set<string>, source: string,
                     found: map<string, Option<Call>>, dist: map<string, nat>, node: string, c: Call)
    requires Discovered(calls, members, source, found, dist) && node in dist
    requires c in calls && c.caller == node && c.callee in members && c.callee !in found
    ensures Discovered(calls, members, source, found[c.callee := Some(c)], dist[c.callee := dist[node] + 1])
  {}

  lemma DiscoverFrontier(g: Graph, members: set<string>, dist: map<string, nat>, queue: seq<string>, node: string,
                         y: string)
    requires node in dist && y !in dist && Frontier(g, members, dist, queue, dist[node], {node})
    ensures Frontier(g, members, dist[y := dist[node] + 1], queue + [y], dist[node], {node})
  {
    var dist', queue' := dist[y := dist[node] + 1], queue + [y];
    assert forall x :: x in dist ==> dist'[x] == dist[x];
    assert y in queue' && forall x :: x in queue ==> x in queue';
    forall x | x in dist' && x !in queue' && x !in {node} ensures Expanded(g, members, dist', x) {
      assert Expanded(g, members, dist, x);
    }
  }

  lemma PopFrontier(g: Graph, members: set<string>, dist: map<string, nat>, queue: seq<string>, level: nat)
    requires Frontier(g, members, dist, queue, level, {}) && queue != []
    ensures queue[0] in dist && Frontier(g, members, dist, queue[1..], dist[queue[0]], {queue[0]})
  {
    hide Expanded;
    assert queue == [queue[0]] + queue[1..];
  }

  /** One dequeued node: every member callee seen for the first time joins the queue. */
  method ExpandNode(ghost g: Graph, ghost calls: seq<Call>, ghost source: string, node: string,
                    members: set<string>, outgoing: CallLists,
                    found0: map<string, Option<Call>>, ghost dist0: map<string, nat>, queue0: seq<string>)
    returns (found: map<string, Option<Call>>, ghost dist: map<string, nat>, queue: seq<string>)
    requires ListsCalls(outgoing, calls) && g == CallMap(calls)
    requires Discovered(calls, members, source, found0, dist0) && node in dist0
    requires Frontier(g, members, dist0, queue0, dist0[node], {node})
    ensures Discovered(calls, members, source, found, dist) && node in dist && dist[node] == dist0[node]
    ensures Frontier(g, members, dist, queue, dist[node], {})
    ensures found0.Keys <= found.Keys && (found0.Keys == found.Keys ==> queue == queue0)
  {
    hide Frontier;
    assert found0.Keys == dist0.Keys;
    hide Discovered;
    found, dist, queue := found0, dist0, queue0;
    var edges := Out(outgoing, node);
    for k := 0 to |edges|
      invariant Discovered(calls, members, source, found, dist) && found.Keys == dist.Keys
      invariant node in dist && dist[node] == dist0[node] && Frontier(g, members, dist, queue, dist[node], {node})
      invariant found0.Keys <= found.Keys && (found0.Keys == found.Keys ==> queue == queue0)
      invariant forall e :: 0 <= e < k && edges[e].callee in members ==> edges[e].callee in dist
    {
      var c := edges[k];
      assert c in Out(outgoing, node);
      if c.callee in members && c.callee !in found {
        Discover(g, calls, members, source, found, dist, queue, node, c);
        dist := dist[c.callee := dist[node] + 1];
        found := found[c.callee := Some(c)];
        queue := queue + [c.callee];
      }
    }
    forall y | y in members && Edge(g, node, y) ensures y in dist {
      CallMapIsGraph(calls);
      assert Calls(calls, node, y);
      var c :| c in calls && c.caller == node && c.callee == y;
      assert c in edges;
    }
    NodeDone(g, members, dist, queue, node);
  }

  lemma NodeDone(g: Graph, members: set<string>, dist: map<string, nat>, queue: seq<string>, node: string)
    requires node in dist && Frontier(g, members, dist, queue, dist[node], {node})
    requires forall y :: y in members && Edge(g, node, y) ==> y in dist
    ensures Frontier(g, members, dist, queue, dist[node], {})
  {
    assert Expanded(g, members, dist, node);
  }

  method SearchBack(ghost g: Graph, ghost calls: seq<Call>, start: string, component: seq<string>,
                    outgoing: CallLists, source: string)
    returns (found: map<string, Option<Call>>, ghost dist: map<string, nat>)
    requires ListsCalls(outgoing, calls) && g == CallMap(calls)
    requires IsComponent(g, component) && start in component && source in component
    ensures Discovered(calls, ToSet(component), source, found, dist) && start in found
    ensures forall x :: x in dist && dist[x] + 1 < dist[start] ==> Expanded(g, ToSet(component), dist, x)
  {
    hide *;
    var members := ToSet(component);
    found := map[source := None];
    dist := map[source := 0];
    var queue := [source];
    ghost var level := 0;
    SearchStart(g, calls, component, source);
    while queue != [] && start !in found
      invariant Discovered(calls, members, source, found, dist)
      invariant Frontier(g, members, dist, queue, level, {})
      decreases members - found.Keys, |queue|
    {
      PopFrontier(g, members, dist, queue, level);
      DiscoveredInside(calls, members, source, found, dist);
      var node := queue[0];
      ghost var reached := found.Keys;
      found, dist, queue := ExpandNode(g, calls, source, node, members, outgoing, found, dist, queue[1..]);
      DiscoveredInside(calls, members, source, found, dist);
      level := dist[node];
    }
    FrontierBound(g, members, dist, queue, level, start);
    DiscoveredInside(calls, members, source, found, dist);
    if start !in found {
      ExpandedReachesAll(g, component, dist, source, start);
    }
  }

  lemma SearchStart(g: Graph, calls: seq<Call>, component: seq<string>, source: string)
    requires source in component
    ensures Discovered(calls, ToSet(component), source, map[source := None], map[source := 0])
    ensures Frontier(g, ToSet(component), map[source := 0], [source], 0, {})
  {}

  lemma DiscoveredInside(calls: seq<Call>, members: set<string>, source: string,
                         found: map<string, Option<Call>>, dist: map<string, nat>)
    requires Discovered(calls, members, source, found, dist)
    ensures found.Keys == dist.Keys && found.Keys <= members && source in dist
  {}

  lemma FrontierBound(g: Graph, members: set<string>, dist: map<string, nat>, queue: seq<string>, level: nat,
                      start: string)
    requires Frontier(g, members, dist, queue, level, {})
    ensures queue == [] ==> forall x :: x in dist ==> Expanded(g, members, dist, x)
    ensures start in dist ==>
              forall x :: x in dist && dist[x] + 1 < dist[start] ==> Expanded(g, members, dist, x)
  {
    hide Expanded;
  }

  lemma {:induction false} PathStaysInside(g: Graph, component: seq<string>, p: seq<string>, k: nat)
    requires IsComponent(g, component) && IsPath(g, p) && k < |p|
    requires p[0] in component && p[|p| - 1] in component
    ensures p[k] in component
  {
    PathParts(g, p, k);
    assert Mutual(g, p[0], p[|p| - 1]);
    ReachTrans(g, p[k], p[|p| - 1], p[0]);
  }

  lemma ExpandedReachesAll(g: Graph, component: seq<string>, dist: map<string, nat>, source: string, start: string)
    requires IsComponent(g, component) && source in component && start in component && source in dist
    requires forall x :: x in dist ==> Expanded(g, ToSet(component), dist, x)
    ensures start in dist
  {
    assert Mutual(g, source, start);
    var p :| Joins(g, p, source, start);
    var k := 0;
    while k < |p| - 1
      invariant 0 <= k < |p| && p[k] in dist
    {
      assert Edge(g, p[k], p[k + 1]);
      PathStaysInside(g, component, p, k + 1);
      assert Expanded(g, ToSet(component), dist, p[k]);
      k := k + 1;
    }
  }

  /** Breadth-first distance is a lower bound on every path back. */
  lemma DistanceIsShortest(g: Graph, component: seq<string>, dist: map<string, nat>, source: string, start: string,
                           p: seq<string>)
    requires IsComponent(g, component) && source in component && start in component
    requires source in dist && dist[source] == 0 && start in dist
    requires forall x :: x in dist && dist[x] + 1 < dist[start] ==> Expanded(g, ToSet(component), dist, x)
    requires Joins(g, p, source, start)
    ensures dist[start] < |p|
  {
    var k := 0;
    while k < |p| - 1
      invariant 0 <= k < |p|
      invariant dist[start] <= k || (p[k] in dist && dist[p[k]] <= k)
    {
      assert Edge(g, p[k], p[k + 1]);
      PathStaysInside(g, component, p, k + 1);
      if dist[start] > k && dist[p[k]] + 1 < dist[start] {
        assert Expanded(g, ToSet(component), dist, p[k]);
      }
      k := k + 1;
    }
  }

  // ----- Reading the cycle off the search -----

  function Reversed<T>(s: seq<T>): (r: seq<T>)
    ensures |r| == |s| && forall i :: 0 <= i < |s| ==> r[i] == s[|s| - 1 - i]
  {
    if s == [] then [] else Reversed(s[1..]) + [s[0]]
  }

  /** The calls back to `source`, nearest to `start` first. */
  method TraceBack(ghost calls: seq<Call>, ghost members: set<string>, source: string, start: string,
                   found: map<string, Option<Call>>, ghost dist: map<string, nat>)
    returns (reversePath: seq<Call>)
    requires Discovered(calls, members, source, found, dist) && start in found
    ensures IsWalk(Reversed(reversePath), source, start) && |reversePath| == dist[start]
    ensures forall i :: 0 <= i < |reversePath| ==>
              && reversePath[i] in calls && reversePath[i].caller in members
              && reversePath[i].caller in dist && dist[reversePath[i].caller] == dist[start] - 1 - i
  {
    reversePath := [];
    var current := start;
    while current != source
      invariant current in dist && dist[current] == dist[start] - |reversePath|
      invariant IsWalk(Reversed(reversePath), current, start)
      invariant forall i :: 0 <= i < |reversePath| ==>
                  && reversePath[i] in calls && reversePath[i].caller in members
                  && reversePath[i].caller in dist && dist[reversePath[i].caller] == dist[start] - 1 - i
      decreases dist[current]
    {
      assert found[current].Some?;
      var edge := found[current].value;
      ghost var before := Reversed(reversePath);
      reversePath := reversePath + [edge];
      assert Reversed(reversePath) == [edge] + before;
      current := edge.caller;
    }
  }

  lemma HasInnerCallee(g: Graph, component: seq<string>, start: string) returns (y: string)
    requires IsComponent(g, component) && start in component && Recursive(g, component)
    ensures Edge(g, start, y) && y in component
  {
    if |component| == 1 {
      y := start;
    } else {
      var other := if component[0] == start then component[1] else component[0];
      assert other != start && Mutual(g, start, other);
      ReachCases(g, start, other);
      y :| Edge(g, start, y) && Reach(g, y, other);
      ReachEdge(g, start, y);
      ReachTrans(g, y, other, start);
      assert Mutual(g, start, y);
    }
  }

  /**
   A simple cycle of real calls from `start` back to `start` inside the component. It leaves by
   the first listed call that stays inside, and returns by a shortest path of the whole graph.
   */
  method RepresentativeCycle(ghost calls: seq<Call>, start: string, component: seq<string>, outgoing: CallLists)
    returns (cycle: seq<Call>)
    requires ListsCalls(outgoing, calls)
    requires IsComponent(CallMap(calls), component) && start in component && Recursive(CallMap(calls), component)
    ensures IsWitness(calls, cycle, start, ToSet(component))
    ensures exists k :: 0 <= k < |Out(outgoing, start)| && Out(outgoing, start)[k] == cycle[0] &&
                        forall j :: 0 <= j < k ==> Out(outgoing, start)[j].callee !in component
    ensures forall p :: Joins(CallMap(calls), p, cycle[0].callee, start) ==> |cycle| <= |p|
  {
    var members := ToSet(component);
    ghost var g := CallMap(calls);
    var edges := Out(outgoing, start);
    InnerCallListed(calls, start, component, outgoing);
    for k := 0 to |edges|
      invariant forall j :: 0 <= j < k ==> edges[j].callee !in component
    {
      var first := edges[k];
      assert first in Out(outgoing, start);
      if first.callee !in members {
        continue;
      }
      if first.callee == start {
        return [first];
      }
      var found;
      ghost var dist;
      found, dist := SearchBack(g, calls, start, component, outgoing, first.callee);
      var reversePath := TraceBack(calls, members, first.callee, start, found, dist);
      cycle := [first] + Reversed(reversePath);
      forall p | Joins(g, p, cycle[0].callee, start) ensures |cycle| <= |p| {
        DistanceIsShortest(g, component, dist, first.callee, start, p);
      }
      return;
    }
    assert false;
  }

  lemma InnerCallListed(calls: seq<Call>, start: string, component: seq<string>, outgoing: CallLists)
    requires ListsCalls(outgoing, calls)
    requires IsComponent(CallMap(calls), component) && start in component && Recursive(CallMap(calls), component)
    ensures exists k :: 0 <= k < |Out(outgoing, start)| && Out(outgoing, start)[k].callee in component
  {
    var y := HasInnerCallee(CallMap(calls), component, start);
    CallMapIsGraph(calls);
    assert Calls(calls, start, y);
    var c :| c in calls && c.caller == start && c.callee == y;
    assert c in Out(outgoing, start);
  }
}
