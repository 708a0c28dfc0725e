/**
 Strongly connected components by two passes (Kosaraju): a depth-first pass with
 explicit frames that records finish order, and a worklist over reversed edges.

 The first pass is summarised by a certificate. `start[i]` is how many nodes had
 finished when `finish[i]` was discovered, so the nodes that finished while it was
 on the stack are exactly `finish[start[i]..i+1]`.
 */
module Components {
  import opened Digraph
  import opened Sequences
  import opened CallGraph

  datatype Frame = Frame(node: string, next: nat)

  /** Everything that finished during a node's visit is below it, and nested inside it. */
  ghost predicate Nested(g: Graph, finish: seq<string>, start: seq<nat>) {
    && |start| == |finish| && Distinct(finish)
    && (forall i :: 0 <= i < |finish| ==> start[i] <= i)
    && (forall i, k :: 0 <= i < |finish| && start[i] <= k <= i ==>
          Reach(g, finish[i], finish[k]) && start[i] <= start[k])
  }

  /** An edge leads to a node that finished earlier, or that was still being visited. */
  ghost predicate EdgesOrdered(g: Graph, finish: seq<string>, start: seq<nat>)
    requires |start| == |finish|
  {
    forall i, j :: 0 <= i < |finish| && 0 <= j < |finish| && Edge(g, finish[i], finish[j]) ==>
      j < i || start[j] <= i
  }

  ghost predicate FinishCertificate(g: Graph, finish: seq<string>, start: seq<nat>) {
    Nested(g, finish, start) && EdgesOrdered(g, finish, start) && ToSet(finish) == g.Keys
  }

  // ----- First pass -----

  /** The open nodes are distinct and unfinished, and each reaches the ones opened after it. */
  ghost predicate StackOk(g: Graph, visited: set<string>, finish: seq<string>, stack: seq<string>) {
    && Distinct(stack)
    && (forall i :: 0 <= i < |stack| ==> stack[i] !in finish)
    && visited == ToSet(finish) + ToSet(stack)
    && (forall i, j :: 0 <= i <= j < |stack| ==> Reach(g, stack[i], stack[j]))
  }

  /** What finished since a node was opened lies below that node. */
  ghost predicate StackNested(g: Graph, finish: seq<string>, start: seq<nat>, stack: seq<string>, since: seq<nat>)
    requires |start| == |finish|
  {
    && |since| == |stack|
    && (forall i, j :: 0 <= i <= j < |stack| ==> since[i] <= since[j] <= |finish|)
    && (forall i, k :: 0 <= i < |stack| && since[i] <= k < |finish| ==>
          Reach(g, stack[i], finish[k]) && since[i] <= start[k])
  }

  /** Every edge out of a finished node ends on a visited node that had finished or was open then. */
  ghost predicate FinishedEdges(g: Graph, visited: set<string>, finish: seq<string>, start: seq<nat>,
                                stack: seq<string>, since: seq<nat>)
    requires |start| == |finish| && |since| == |stack|
  {
    && EdgesOrdered(g, finish, start)
    && (forall i, w :: 0 <= i < |finish| && Edge(g, finish[i], w) ==> w in visited)
    && (forall i, m :: 0 <= i < |finish| && 0 <= m < |stack| && Edge(g, finish[i], stack[m]) ==> since[m] <= i)
  }

  ghost predicate DfsInvariant(g: Graph, visited: set<string>, finish: seq<string>, start: seq<nat>,
                               stack: seq<string>, since: seq<nat>) {
    && visited <= g.Keys
    && Nested(g, finish, start)
    && StackOk(g, visited, finish, stack)
    && StackNested(g, finish, start, stack, since)
    && FinishedEdges(g, visited, finish, start, stack, since)
  }

  /** Each frame has already followed its first `next` edges. */
  ghost predicate Progress(g: Graph, visited: set<string>, frames: seq<Frame>, stack: seq<string>) {
    && |frames| == |stack|
    && (forall i :: 0 <= i < |frames| ==>
          frames[i].node == stack[i] && stack[i] in g && frames[i].next <= |g[stack[i]]|)
    && (forall i, e :: 0 <= i < |frames| && 0 <= e < frames[i].next ==> g[stack[i]][e] in visited)
  }

  lemma PushStack(g: Graph, visited: set<string>, finish: seq<string>, stack: seq<string>, target: string)
    requires StackOk(g, visited, finish, stack) && target !in visited
    requires stack != [] ==> Edge(g, stack[|stack| - 1], target)
    ensures StackOk(g, visited + {target}, finish, stack + [target])
  {
    hide Reach;
    ReachSelf(g, target);
    forall i | 0 <= i < |stack| ensures Reach(g, stack[i], target) {
      ReachEdge(g, stack[|stack| - 1], target);
      ReachTrans(g, stack[i], stack[|stack| - 1], target);
    }
    assert target !in ToSet(finish) && target !in ToSet(stack);
    DistinctAppend(stack, target);
    assert ToSet(stack + [target]) == ToSet(stack) + {target};
  }

  lemma PushKeeps(g: Graph, visited: set<string>, finish: seq<string>, start: seq<nat>,
                  stack: seq<string>, since: seq<nat>, target: string)
    requires DfsInvariant(g, visited, finish, start, stack, since)
    requires target in g && target !in visited
    requires stack != [] ==> Edge(g, stack[|stack| - 1], target)
    ensures DfsInvariant(g, visited + {target}, finish, start, stack + [target], since + [|finish|])
  {
    hide Reach;
    PushStack(g, visited, finish, stack, target);
    hide StackOk;
    hide Nested;
    assert StackNested(g, finish, start, stack + [target], since + [|finish|]);
    assert FinishedEdges(g, visited + {target}, finish, start, stack + [target], since + [|finish|]);
  }

  lemma FinishStack(g: Graph, visited: set<string>, finish: seq<string>, stack: seq<string>)
    requires StackOk(g, visited, finish, stack) && stack != []
    ensures StackOk(g, visited, finish + [stack[|stack| - 1]], stack[..|stack| - 1])
  {
    hide Reach;
    var u, rest := stack[|stack| - 1], stack[..|stack| - 1];
    assert stack == rest + [u];
    DistinctAppend(rest, u);
    assert ToSet(stack) == ToSet(rest) + {u};
    assert ToSet(finish + [u]) == ToSet(finish) + {u};
  }

  lemma FinishNested(g: Graph, finish: seq<string>, start: seq<nat>, u: string, since: nat)
    requires Nested(g, finish, start) && u !in finish && since <= |finish|
    requires forall k :: since <= k < |finish| ==> Reach(g, u, finish[k]) && since <= start[k]
    ensures Nested(g, finish + [u], start + [since])
  {
    ReachSelf(g, u);
    hide Reach;
    DistinctAppend(finish, u);
  }

  lemma FinishKeeps(g: Graph, visited: set<string>, finish: seq<string>, start: seq<nat>,
                    stack: seq<string>, since: seq<nat>)
    requires DfsInvariant(g, visited, finish, start, stack, since) && stack != []
    requires forall w :: Edge(g, stack[|stack| - 1], w) ==> w in visited
    ensures var n := |stack| - 1;
            DfsInvariant(g, visited, finish + [stack[n]], start + [since[n]], stack[..n], since[..n])
  {
    hide Reach;
    var n := |stack| - 1;
    var u := stack[n];
    FinishStack(g, visited, finish, stack);
    FinishNested(g, finish, start, u, since[n]);
    var f', s', st', o' := finish + [u], start + [since[n]], stack[..n], since[..n];
    assert StackNested(g, f', s', st', o') by {
      assert forall i :: 0 <= i < n ==> Reach(g, stack[i], u);
    }
    assert FinishedEdges(g, visited, f', s', st', o');
  }

  lemma FinishedIsCertificate(g: Graph, visited: set<string>, finish: seq<string>, start: seq<nat>)
    requires DfsInvariant(g, visited, finish, start, [], []) && visited == g.Keys
    ensures FinishCertificate(g, finish, start)
  {
    hide Reach;
  }

  lemma ProgressFollow(g: Graph, visited: set<string>, frames: seq<Frame>, stack: seq<string>, visited': set<string>)
    requires Progress(g, visited, frames, stack) && frames != [] && visited <= visited'
    requires var top := frames[|frames| - 1]; top.next < |g[top.node]| && g[top.node][top.next] in visited'
    ensures var n := |frames| - 1;
            Progress(g, visited', frames[n := Frame(frames[n].node, frames[n].next + 1)], stack)
  {}

  lemma ProgressResize(g: Graph, visited: set<string>, frames: seq<Frame>, stack: seq<string>, target: string)
    requires Progress(g, visited, frames, stack)
    ensures target in g ==> Progress(g, visited, frames + [Frame(target, 0)], stack + [target])
    ensures frames != [] ==> Progress(g, visited, frames[..|frames| - 1], stack[..|stack| - 1])
  {}

  /** When a frame has followed all its edges, they all end on visited nodes. */
  lemma ProgressDone(g: Graph, visited: set<string>, frames: seq<Frame>, stack: seq<string>)
    requires Progress(g, visited, frames, stack) && frames != []
    requires var top := frames[|frames| - 1]; top.node in g ==> top.next >= |g[top.node]|
    ensures stack != [] && forall w :: Edge(g, stack[|stack| - 1], w) ==> w in visited
  {}

  lemma TopFrame(g: Graph, visited: set<string>, frames: seq<Frame>, stack: seq<string>)
    requires Progress(g, visited, frames, stack)
    ensures |frames| == |stack|
    ensures frames != [] ==>
              && frames[|frames| - 1].node == stack[|stack| - 1] && stack[|stack| - 1] in g
              && frames[|frames| - 1].next <= |g[stack[|stack| - 1]]|
  {}

  /** Visits everything below `root` that is not visited yet; frames hold the edge to follow next. */
  method VisitFrom(g: Graph, root: string, visited0: set<string>, finish0: seq<string>, ghost start0: seq<nat>)
    returns (visited: set<string>, finish: seq<string>, ghost start: seq<nat>)
    requires Closed(g) && root in g && root !in visited0
    requires DfsInvariant(g, visited0, finish0, start0, [], [])
    ensures DfsInvariant(g, visited, finish, start, [], []) && visited0 + {root} <= visited
  {
    hide Reach;
    hide DfsInvariant;
    visited, finish, start := visited0 + {root}, finish0, start0;
    var frames := [Frame(root, 0)];
    ghost var stack: seq<string>, since: seq<nat> := [root], [|finish|];
    PushKeeps(g, visited0, finish, start, [], [], root);
    assert [] + [root] == stack && [] + [|finish|] == since;
    assert Progress(g, visited, frames, stack);
    hide Progress;
    while frames != []
      invariant DfsInvariant(g, visited, finish, start, stack, since)
      invariant Progress(g, visited, frames, stack)
      invariant visited0 + {root} <= visited
      decreases g.Keys - visited, |frames|,
                if frames == [] || frames[|frames| - 1].node !in g then 0
                else |g[frames[|frames| - 1].node]| - frames[|frames| - 1].next
    {
      TopFrame(g, visited, frames, stack);
      var n := |frames| - 1;
      var node, next := frames[n].node, frames[n].next;
      if next < |g[node]| {
        var target := g[node][next];
        assert Edge(g, node, target);
        ProgressFollow(g, visited, frames, stack, visited + {target});
        frames := frames[n := Frame(node, next + 1)];
        if target !in visited {
          PushKeeps(g, visited, finish, start, stack, since, target);
          visited := visited + {target};
          ProgressResize(g, visited, frames, stack, target);
          frames := frames + [Frame(target, 0)];
          stack, since := stack + [target], since + [|finish|];
        } else {
          assert visited + {target} == visited;
        }
        continue;
      }
      ProgressDone(g, visited, frames, stack);
      ProgressResize(g, visited, frames, stack, node);
      DfsShape(g, visited, finish, start, stack, since);
      FinishKeeps(g, visited, finish, start, stack, since);
      start, since := start + [since[n]], since[..n];
      finish := finish + [node];
      frames, stack := frames[..n], stack[..n];
    }
    TopFrame(g, visited, frames, stack);
    DfsShape(g, visited, finish, start, stack, since);
    assert stack == [] && since == [];
  }

  lemma DfsShape(g: Graph, visited: set<string>, finish: seq<string>, start: seq<nat>,
                 stack: seq<string>, since: seq<nat>)
    requires DfsInvariant(g, visited, finish, start, stack, since)
    ensures |since| == |stack| && |start| == |finish|
  {}

  method FinishOrder(g: Graph, nodes: seq<string>) returns (finish: seq<string>, ghost start: seq<nat>)
    requires Closed(g) && ToSet(nodes) == g.Keys
    ensures FinishCertificate(g, finish, start)
  {
    hide Reach;
    var visited := {};
    finish, start := [], [];
    for k := 0 to |nodes|
      invariant DfsInvariant(g, visited, finish, start, [], [])
      invariant ToSet(nodes[..k]) <= visited
    {
      var root := nodes[k];
      assert root in ToSet(nodes);
      assert ToSet(nodes[..k + 1]) == ToSet(nodes[..k]) + {root};
      if root !in visited {
        visited, finish, start := VisitFrom(g, root, visited, finish, start);
      }
    }
    assert nodes[..|nodes|] == nodes;
    FinishedIsCertificate(g, visited, finish, start);
  }

  // ----- Second pass -----

  /** A component holds, with each member, exactly the nodes in mutual reach of it. */
  ghost predicate IsComponent(g: Graph, c: seq<string>) {
    && c != [] && Distinct(c)
    && forall x, y :: x in c ==> (y in c <==> Mutual(g, x, y))
  }

  ghost predicate MutualClosed(g: Graph, nodes: set<string>) {
    forall x, y :: x in nodes && Mutual(g, x, y) ==> y in nodes
  }

  /** The nodes collected for one root: each reaches the root and finished during its visit. */
  ghost predicate Collected(g: Graph, finish: seq<string>, start: seq<nat>, r: nat, members: set<string>)
    requires r < |finish| == |start|
  {
    && finish[r] in members
    && forall x :: x in members ==>
         Reach(g, x, finish[r]) && exists k :: start[r] <= k <= r && finish[k] == x
  }

  /** One reversed edge stays inside the root's visit: no node outside the component is collected. */
  lemma CollectPredecessor(g: Graph, finish: seq<string>, start: seq<nat>, r: nat,
                           members: set<string>, x: string, p: string)
    requires FinishCertificate(g, finish, start) && r < |finish|
    requires Collected(g, finish, start, r, members) && x in members
    requires Edge(g, p, x) && p !in finish[r + 1..]
    ensures Collected(g, finish, start, r, members + {p})
  {
    hide Reach;
    ReachStep(g, p, x, finish[r]);
    assert p in ToSet(finish);
    var m :| 0 <= m < |finish| && finish[m] == p;
    assert m <= r by {
      assert forall j :: r < j < |finish| ==> finish[r + 1..][j - r - 1] == finish[j];
    }
    var k :| start[r] <= k <= r && finish[k] == x;
    assert Edge(g, finish[m], finish[k]);
    assert start[r] <= m && finish[m] == p;
  }

  lemma {:induction false} BackwardClosure(g: Graph, earlier: set<string>, members: set<string>, p: seq<string>)
    requires IsPath(g, p) && p[|p| - 1] in members
    requires MutualClosed(g, earlier) && forall x :: x in members ==> x !in earlier
    requires forall x, q :: x in members && Edge(g, q, x) ==> q in earlier + members
    requires Reach(g, p[|p| - 1], p[0])
    ensures p[0] in members
    decreases |p|
  {
    if |p| > 1 {
      var q := p[..|p| - 1];
      var a, b := q[|q| - 1], p[|p| - 1];
      assert Edge(g, a, b);
      PathParts(g, p, |q| - 1);
      ReachEdge(g, a, b);
      ReachTrans(g, a, b, p[0]);
      ReachTrans(g, b, p[0], a);
      assert Mutual(g, a, b);
      BackwardClosure(g, earlier, members, q);
    }
  }

  lemma CollectedIsComponent(g: Graph, finish: seq<string>, start: seq<nat>, r: nat,
                             earlier: set<string>, component: seq<string>)
    requires FinishCertificate(g, finish, start) && r < |finish|
    requires Collected(g, finish, start, r, ToSet(component)) && Distinct(component)
    requires MutualClosed(g, earlier) && ToSet(component) !! earlier
    requires forall x, q :: x in component && Edge(g, q, x) ==> q in earlier + ToSet(component)
    ensures IsComponent(g, component) && MutualClosed(g, earlier + ToSet(component))
  {
    var root, members := finish[r], ToSet(component);
    forall y ensures y in members <==> Mutual(g, root, y) {
      if Mutual(g, root, y) {
        var p :| Joins(g, p, y, root);
        BackwardClosure(g, earlier, members, p);
      }
    }
    forall x, y | x in members ensures y in members <==> Mutual(g, x, y) {
      MutualTrans(g, root, x, y);
      MutualTrans(g, x, root, y);
    }
  }

  lemma MutualTrans(g: Graph, x: string, y: string, z: string)
    ensures Mutual(g, x, y) && Mutual(g, y, z) ==> Mutual(g, x, z)
  {
    if Mutual(g, x, y) && Mutual(g, y, z) {
      ReachTrans(g, x, y, z);
      ReachTrans(g, z, y, x);
    }
  }

  method CollectComponent(g: Graph, incoming: Graph, finish: seq<string>, ghost start: seq<nat>, r: nat,
                          taken0: set<string>)
    returns (taken: set<string>, component: seq<string>)
    requires Closed(g) && Reverses(incoming, g)
    requires FinishCertificate(g, finish, start) && r < |finish|
    requires finish[r] !in taken0 && MutualClosed(g, taken0) && ToSet(finish[r + 1..]) <= taken0
    ensures IsComponent(g, component) && component != [] && ToSet(component) !! taken0
    ensures taken == taken0 + ToSet(component) && finish[r] in taken && MutualClosed(g, taken)
    ensures ToSet(component) <= g.Keys
  {
    hide Reach, FinishCertificate, MutualClosed, Collected, IsComponent, Closed;
    var root := finish[r];
    taken := taken0 + {root};
    var worklist := [root];
    component := [];
    RootCollected(g, finish, start, r);
    assert ToSet(component) + ToSet(worklist) == {root};
    while worklist != []
      invariant Distinct(component) && Distinct(worklist)
      invariant ToSet(component) !! ToSet(worklist) !! taken0
      invariant taken == taken0 + ToSet(component) + ToSet(worklist)
      invariant ToSet(component) + ToSet(worklist) <= g.Keys
      invariant |start| == |finish| && Collected(g, finish, start, r, ToSet(component) + ToSet(worklist))
      invariant forall x, q :: x in component && Edge(g, q, x) ==> q in taken
      decreases g.Keys - taken, |worklist|
    {
      ghost var gathered := ToSet(component) + ToSet(worklist);
      var node := worklist[|worklist| - 1];
      ghost var popped := worklist[..|worklist| - 1];
      assert worklist == popped + [node];
      DistinctAppend(popped, node);
      assert ToSet(worklist) == ToSet(popped) + {node};
      worklist := worklist[..|worklist| - 1];
      DistinctAppend(component, node);
      assert ToSet(component + [node]) == ToSet(component) + {node};
      component := component + [node];
      assert ToSet(component) + ToSet(worklist) == gathered;
      ghost var before, pending := taken, worklist;
      var predecessors := incoming[node];
      for k := 0 to |predecessors|
        invariant Distinct(worklist) && ToSet(component) !! ToSet(worklist) !! taken0
        invariant taken == taken0 + ToSet(component) + ToSet(worklist)
        invariant ToSet(component) + ToSet(worklist) <= g.Keys
        invariant Collected(g, finish, start, r, ToSet(component) + ToSet(worklist))
        invariant before <= taken && (taken == before ==> worklist == pending)
        invariant forall e :: 0 <= e < k ==> predecessors[e] in taken
      {
        var p := predecessors[k];
        assert Edge(incoming, node, p);
        if p !in taken {
          CollectPredecessor(g, finish, start, r, ToSet(component) + ToSet(worklist), node, p);
          DistinctAppend(worklist, p);
          assert ToSet(worklist + [p]) == ToSet(worklist) + {p};
          assert ToSet(component) + ToSet(worklist + [p]) == ToSet(component) + ToSet(worklist) + {p};
          taken := taken + {p};
          worklist := worklist + [p];
        }
      }
      forall q | Edge(g, q, node) ensures q in taken {
        assert Edge(incoming, node, q);
      }
    }
    assert ToSet(component) + ToSet(worklist) == ToSet(component);
    CollectedIsComponent(g, finish, start, r, taken0, component);
  }

  lemma RootCollected(g: Graph, finish: seq<string>, start: seq<nat>, r: nat)
    requires FinishCertificate(g, finish, start) && r < |finish|
    ensures |start| == |finish| && Collected(g, finish, start, r, {finish[r]}) && finish[r] in g
  {
    ReachSelf(g, finish[r]);
    assert start[r] <= r && finish[r] == finish[r];
    assert finish[r] in ToSet(finish);
  }

  // ----- The whole algorithm -----

  ghost predicate IsPartition(g: Graph, components: seq<seq<string>>) {
    && (forall k :: 0 <= k < |components| ==> IsComponent(g, components[k]) && ToSet(components[k]) <= g.Keys)
    && (forall x :: x in g ==> exists k :: 0 <= k < |components| && x in components[k])
    && (forall k, m, x :: 0 <= k < m < |components| && x in components[k] ==> x !in components[m])
  }

  lemma SortedComponent(g: Graph, c: seq<string>)
    requires IsComponent(g, c)
    ensures IsComponent(g, Sort(c, Leq)) && ToSet(Sort(c, Leq)) == ToSet(c) && SortedBy(Sort(c, Leq), Leq)
  {
    hide Mutual;
    SortElements(c, Leq);
    SortDistinct(c, Leq);
    NamePreorder();
    SortSorted(c, Leq);
    assert forall x :: x in Sort(c, Leq) <==> x in ToSet(Sort(c, Leq));
    assert forall x :: x in c <==> x in ToSet(c);
  }

  method AssignComponents(g: Graph, incoming: Graph, finish: seq<string>, ghost start: seq<nat>)
    returns (components: seq<seq<string>>)
    requires Closed(g) && Reverses(incoming, g) && FinishCertificate(g, finish, start)
    ensures IsPartition(g, components)
    ensures forall k :: 0 <= k < |components| ==> SortedBy(components[k], Leq)
  {
    hide IsComponent, MutualClosed, Reach, Assigned, Reverses, FinishCertificate;
    var taken := {};
    components := [];
    assert MutualClosed(g, taken) by { NoneClosed(g); }
    NoneAssigned(g);
    var r := |finish|;
    while r > 0
      invariant 0 <= r <= |finish|
      invariant MutualClosed(g, taken) && ToSet(finish[r..]) <= taken
      invariant Assigned(g, taken, components)
    {
      r := r - 1;
      assert finish[r..] == [finish[r]] + finish[r + 1..];
      assert ToSet(finish[r..]) == {finish[r]} + ToSet(finish[r + 1..]);
      if finish[r] !in taken {
        var component;
        ghost var before := taken;
        taken, component := CollectComponent(g, incoming, finish, start, r, taken);
        SortedComponent(g, component);
        AssignNext(g, before, taken, components, Sort(component, Leq));
        components := components + [Sort(component, Leq)];
      }
    }
    assert finish[0..] == finish;
    AllAssigned(g, finish, start, taken, components);
  }

  /** The components found so far hold the nodes taken so far, each once. */
  ghost predicate Assigned(g: Graph, taken: set<string>, components: seq<seq<string>>) {
    && (forall x :: x in taken ==> exists k :: 0 <= k < |components| && x in components[k])
    && (forall k :: 0 <= k < |components| ==>
          && IsComponent(g, components[k]) && SortedBy(components[k], Leq)
          && ToSet(components[k]) <= g.Keys && ToSet(components[k]) <= taken)
    && (forall k, m, x :: 0 <= k < m < |components| && x in components[k] ==> x !in components[m])
  }

  lemma NoneAssigned(g: Graph)
    ensures Assigned(g, {}, [])
  {}

  lemma AssignNext(g: Graph, before: set<string>, taken: set<string>, components: seq<seq<string>>,
                   component: seq<string>)
    requires Assigned(g, before, components) && taken == before + ToSet(component)
    requires IsComponent(g, component) && SortedBy(component, Leq) && ToSet(component) <= g.Keys
    requires forall x :: x in component ==> x !in before
    ensures Assigned(g, taken, components + [component])
  {
    hide IsComponent, SortedBy;
    var all := components + [component];
    forall x | x in taken ensures exists k :: 0 <= k < |all| && x in all[k] {
      if x in before {
        var k :| 0 <= k < |components| && x in components[k];
        assert x in all[k];
      } else {
        assert x in all[|components|];
      }
    }
    forall k, m, x | 0 <= k < m < |all| && x in all[k] ensures x !in all[m] {
      if m == |components| {
        assert x in ToSet(components[k]);
      }
    }
  }

  lemma AllAssigned(g: Graph, finish: seq<string>, start: seq<nat>, taken: set<string>, components: seq<seq<string>>)
    requires FinishCertificate(g, finish, start) && ToSet(finish) <= taken && Assigned(g, taken, components)
    ensures IsPartition(g, components)
    ensures forall k :: 0 <= k < |components| ==> SortedBy(components[k], Leq)
  {
    hide IsComponent, SortedBy, Nested, EdgesOrdered;
  }

  lemma NoneClosed(g: Graph)
    ensures MutualClosed(g, {})
  {}

  lemma PartitionTransfers(g: Graph, calls: seq<Call>, components: seq<seq<string>>)
    requires IsGraphOf(g, calls) && IsPartition(g, components)
    ensures IsPartition(CallMap(calls), components)
  {
    hide IsPartition;
    var h := CallMap(calls);
    CallMapIsGraph(calls);
    SameEdgesSameReach(g, h);
    ReachOnly(g, h, components);
  }

  lemma ReachOnly(g: Graph, h: Graph, components: seq<seq<string>>)
    requires g.Keys == h.Keys && IsPartition(g, components)
    requires forall a, b :: Reach(g, a, b) <==> Reach(h, a, b)
    ensures IsPartition(h, components)
  {
    hide Reach;
  }

  /** Two nodes share a component exactly when each reaches the other. */
  method StronglyConnectedComponents(calls: seq<Call>) returns (components: seq<seq<string>>)
    ensures IsPartition(CallMap(calls), components)
    ensures forall k :: 0 <= k < |components| ==> SortedBy(components[k], Leq)
  {
    var nodes, outgoing, incoming := BuildAdjacency(calls);
    var finish, start := FinishOrder(outgoing, nodes);
    components := AssignComponents(outgoing, incoming, finish, start);
    PartitionTransfers(outgoing, calls, components);
  }
}
