/**
 Directed graphs as adjacency dictionaries, the shape every tool here builds:
 a name that is not a key is a leaf. Reachability is the existence of a path;
 `NoRepeat` is the descent "follow every edge, fail on a name already active"
 that the dependency, profile and module walks all perform.
 */
module Digraph {

  type Graph = map<string, seq<string>>

  predicate Edge(g: Graph, a: string, b: string) {
    a in g && b in g[a]
  }

  predicate IsPath(g: Graph, p: seq<string>) {
    && |p| > 0
    && forall i, j :: 0 <= i && j == i + 1 < |p| ==> Edge(g, p[i], p[j])
  }

  predicate Joins(g: Graph, p: seq<string>, a: string, b: string) {
    IsPath(g, p) && p[0] == a && p[|p| - 1] == b
  }

  ghost predicate Reach(g: Graph, a: string, b: string) {
    exists p :: Joins(g, p, a, b)
  }

  /** `a` reaches `b` along at least one edge. */
  ghost predicate Leads(g: Graph, a: string, b: string) {
    exists c :: Edge(g, a, c) && Reach(g, c, b)
  }

  ghost predicate Mutual(g: Graph, a: string, b: string) {
    Reach(g, a, b) && Reach(g, b, a)
  }

  ghost predicate CycleReachable(g: Graph, n: string) {
    exists c :: Reach(g, n, c) && Leads(g, c, c)
  }

  lemma ReachSelf(g: Graph, a: string)
    ensures Reach(g, a, a)
  {
    assert Joins(g, [a], a, a);
  }

  lemma ReachStep(g: Graph, a: string, b: string, c: string)
    requires Edge(g, a, b) && Reach(g, b, c)
    ensures Reach(g, a, c)
  {
    var p :| Joins(g, p, b, c);
    assert Joins(g, [a] + p, a, c);
  }

  lemma ReachTrans(g: Graph, a: string, b: string, c: string)
    requires Reach(g, a, b) && Reach(g, b, c)
    ensures Reach(g, a, c)
  {
    var p :| Joins(g, p, a, b);
    var q :| Joins(g, q, b, c);
    var r := p + q[1..];
    forall i, j | 0 <= i && j == i + 1 < |r|
      ensures Edge(g, r[i], r[j])
    {
      if i >= |p| - 1 { assert r[i] == q[i - |p| + 1] && r[j] == q[j - |p| + 1]; }
    }
    assert Joins(g, r, a, c);
  }

  lemma ReachEdge(g: Graph, a: string, b: string)
    requires Edge(g, a, b)
    ensures Reach(g, a, b)
  {
    ReachSelf(g, b);
    ReachStep(g, a, b, b);
  }

  lemma LeadsTrans(g: Graph, a: string, b: string, c: string)
    requires Leads(g, a, b) && Reach(g, b, c)
    ensures Leads(g, a, c) && Reach(g, a, c)
  {
    var d :| Edge(g, a, d) && Reach(g, d, b);
    ReachTrans(g, d, b, c);
    ReachStep(g, a, d, c);
  }

  lemma LeadsEdge(g: Graph, a: string, b: string)
    requires Edge(g, a, b)
    ensures Leads(g, a, b)
  {
    ReachSelf(g, b);
  }

  /** A path can be cut at any of its positions. */
  lemma PathParts(g: Graph, p: seq<string>, k: nat)
    requires IsPath(g, p) && k < |p|
    ensures Reach(g, p[0], p[k]) && Reach(g, p[k], p[|p| - 1])
  {
    assert Joins(g, p[..k + 1], p[0], p[k]);
    assert Joins(g, p[k..], p[k], p[|p| - 1]);
  }

  lemma ReachCases(g: Graph, a: string, b: string)
    requires Reach(g, a, b)
    ensures a == b || Leads(g, a, b)
  {
    var p :| Joins(g, p, a, b);
    if |p| > 1 {
      assert Joins(g, p[1..], p[1], b);
      assert Edge(g, a, p[1]);
    }
  }

  ghost predicate Subgraph(g: Graph, h: Graph) {
    forall a, b :: Edge(g, a, b) ==> Edge(h, a, b)
  }

  lemma ReachGrows(g: Graph, h: Graph, a: string, b: string)
    requires Subgraph(g, h) && Reach(g, a, b)
    ensures Reach(h, a, b)
  {
    var p :| Joins(g, p, a, b);
    assert Joins(h, p, a, b);
  }

  /** More edges keep every cycle in reach. */
  lemma CycleGrows(g: Graph, h: Graph, n: string)
    requires Subgraph(g, h) && CycleReachable(g, n)
    ensures CycleReachable(h, n)
  {
    hide Reach;
    var c :| Reach(g, n, c) && Leads(g, c, c);
    var d :| Edge(g, c, d) && Reach(g, d, c);
    ReachGrows(g, h, n, c);
    ReachGrows(g, h, d, c);
    assert Leads(h, c, c);
  }

  /** The descent with an active set: every name below `n` is met outside its own ancestry. */
  predicate NoRepeat(g: Graph, n: string, active: set<string>)
    decreases |g.Keys - active|
  {
    n in g ==>
      && n !in active
      && (Shrinks(g.Keys, active, n);
          forall c :: c in g[n] ==> NoRepeat(g, c, active + {n}))
  }

  lemma Shrinks(keys: set<string>, active: set<string>, n: string)
    requires n in keys && n !in active
    ensures |keys - (active + {n})| < |keys - active|
  {
    assert keys - (active + {n}) == (keys - active) - {n};
  }

  lemma {:induction false} NoRepeatAlong(g: Graph, n: string, active: set<string>, p: seq<string>)
    requires NoRepeat(g, n, active) && IsPath(g, p) && p[0] == n && p[|p| - 1] in g
    ensures p[|p| - 1] !in active && p[|p| - 1] !in p[..|p| - 1]
    decreases |p|
  {
    if |p| > 1 {
      assert Edge(g, p[0], p[1]);
      NoRepeatAlong(g, p[1], active + {n}, p[1..]);
      assert p[..|p| - 1] == [n] + p[1..][..|p| - 2];
    }
  }

  lemma {:induction false} RepeatMeansCycle(g: Graph, n: string, active: set<string>)
    requires !NoRepeat(g, n, active)
    requires forall a :: a in active ==> Leads(g, a, n)
    ensures CycleReachable(g, n)
    decreases |g.Keys - active|
  {
    ReachSelf(g, n);
    if n !in active {
      Shrinks(g.Keys, active, n);
      var c :| c in g[n] && !NoRepeat(g, c, active + {n});
      assert Edge(g, n, c);
      ReachEdge(g, n, c);
      LeadsEdge(g, n, c);
      forall a | a in active + {n} ensures Leads(g, a, c) {
        if a != n { LeadsTrans(g, a, n, c); }
      }
      RepeatMeansCycle(g, c, active + {n});
      var d :| Reach(g, c, d) && Leads(g, d, d);
      ReachStep(g, n, c, d);
    }
  }

  /** The descent from a clean start succeeds exactly when no cycle is reachable. */
  lemma {:induction false} NoRepeatIffAcyclic(g: Graph, n: string)
    ensures NoRepeat(g, n, {}) <==> !CycleReachable(g, n)
  {
    if !NoRepeat(g, n, {}) {
      RepeatMeansCycle(g, n, {});
    } else if CycleReachable(g, n) {
      var c :| Reach(g, n, c) && Leads(g, c, c);
      var p :| Joins(g, p, n, c);
      var d :| Edge(g, c, d) && Reach(g, d, c);
      var q :| Joins(g, q, d, c);
      var r := p + q;
      forall i, j | 0 <= i && j == i + 1 < |r|
        ensures Edge(g, r[i], r[j])
      {
        if i >= |p| { assert r[i] == q[i - |p|] && r[j] == q[j - |p|]; }
      }
      assert r[..|r| - 1][|p| - 1] == c;
      NoRepeatAlong(g, n, {}, r);
    }
  }
}
