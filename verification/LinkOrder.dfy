/**
 The archive link order: dependents precede their providers. Child closures are memoised and
 merged by moving every shared provider to the end of an insertion-ordered dictionary.
 */
module LinkOrder {
  import opened Digraph
  import opened Sequences
  import opened LibraryGraph

  // ----- Insertion-ordered dictionaries -----

  function Without(keys: seq<string>, dropped: seq<string>): (r: seq<string>)
    ensures forall x :: x in r <==> x in keys && x !in dropped
    ensures Distinct(keys) ==> Distinct(r)
  {
    if keys == [] then []
    else
      assert keys == keys[..|keys| - 1] + [keys[|keys| - 1]];
      var r, x := Without(keys[..|keys| - 1], dropped), keys[|keys| - 1];
      if x in dropped then r else DistinctAppend(r, x); r + [x]
  }

  /** Pop and reinsert each item in turn. */
  function MoveToEnd(keys: seq<string>, items: seq<string>): seq<string> {
    if items == [] then keys
    else Without(MoveToEnd(keys, items[..|items| - 1]), [items[|items| - 1]]) + [items[|items| - 1]]
  }

  lemma {:induction false} WithoutConcat(a: seq<string>, b: seq<string>, dropped: seq<string>)
    ensures Without(a + b, dropped) == Without(a, dropped) + Without(b, dropped)
  {
    if b == [] {
      assert a + b == a;
    } else {
      var init, last := b[..|b| - 1], b[|b| - 1];
      WithoutConcat(a, init, dropped);
      assert (a + b)[..|a + b| - 1] == a + init && (a + b)[|a + b| - 1] == last;
      assert Without(a, dropped) + (Without(init, dropped) + [last]) ==
             (Without(a, dropped) + Without(init, dropped)) + [last];
    }
  }

  lemma {:induction false} WithoutTwice(keys: seq<string>, a: seq<string>, x: string)
    ensures Without(Without(keys, a), [x]) == Without(keys, a + [x])
  {
    if keys != [] {
      var init, y := keys[..|keys| - 1], keys[|keys| - 1];
      WithoutTwice(init, a, x);
      if y !in a {
        WithoutConcat(Without(init, a), [y], [x]);
        assert [y][..0] == [] && Without([y], [x]) == if y == x then [] else [y];
      }
    }
  }

  lemma {:induction false} WithoutNothing(keys: seq<string>, dropped: seq<string>)
    requires forall x :: x in keys ==> x !in dropped
    ensures Without(keys, dropped) == keys
  {
    if keys != [] {
      var init, last := keys[..|keys| - 1], keys[|keys| - 1];
      assert forall x :: x in init ==> x in keys;
      WithoutNothing(init, dropped);
      assert last in keys && keys == init + [last];
    }
  }

  /** Moving distinct items one by one leaves the others in place and the items last, in order. */
  lemma {:induction false} MoveToEndIs(keys: seq<string>, items: seq<string>)
    requires Distinct(items)
    ensures MoveToEnd(keys, items) == Without(keys, items) + items
  {
    hide Without, Distinct;
    if items == [] {
      WithoutNothing(keys, items);
      assert keys + [] == keys;
    } else {
      var init, x := items[..|items| - 1], items[|items| - 1];
      assert items == init + [x];
      DistinctAppend(init, x);
      MoveToEndIs(keys, init);
      WithoutConcat(Without(keys, init), init, [x]);
      WithoutTwice(keys, init, x);
      WithoutNothing(init, [x]);
      assert (Without(keys, items) + init) + [x] == Without(keys, items) + (init + [x]);
    }
  }

  // ----- Orders -----

  /** No listed name has an edge to itself or to an earlier one. */
  ghost predicate Forward(g: Graph, order: seq<string>) {
    order == [] ||
    (Forward(g, order[..|order| - 1]) && forall x :: x in order ==> !Edge(g, order[|order| - 1], x))
  }

  ghost predicate ClosedUnder(g: Graph, order: seq<string>) {
    forall x, y :: x in order && Edge(g, x, y) ==> y in order
  }

  ghost predicate IsOrder(g: Graph, order: seq<string>) {
    Distinct(order) && Forward(g, order) && ClosedUnder(g, order)
  }

  lemma {:induction false} ForwardAt(g: Graph, order: seq<string>, i: nat, j: nat)
    requires Forward(g, order) && i <= j < |order|
    ensures !Edge(g, order[j], order[i])
  {
    if j < |order| - 1 { ForwardAt(g, order[..|order| - 1], i, j); } else { assert order[i] in order; }
  }

  lemma {:induction false} ForwardWithout(g: Graph, order: seq<string>, dropped: seq<string>)
    requires Forward(g, order)
    ensures Forward(g, Without(order, dropped))
  {
    if order != [] {
      ForwardWithout(g, order[..|order| - 1], dropped);
      var r := Without(order, dropped);
      if order[|order| - 1] !in dropped {
        assert r[..|r| - 1] == Without(order[..|order| - 1], dropped);
      }
    }
  }

  lemma {:induction false} ForwardConcat(g: Graph, a: seq<string>, b: seq<string>)
    requires Forward(g, a) && Forward(g, b)
    requires forall x, y :: x in b && y in a ==> !Edge(g, x, y)
    ensures Forward(g, a + b)
  {
    if b == [] {
      assert a + b == a;
    } else {
      ForwardConcat(g, a, b[..|b| - 1]);
      assert (a + b)[..|a + b| - 1] == a + b[..|b| - 1];
    }
  }

  /** Merging a closed order into another by move-to-end is again an order. */
  lemma MergeOrders(g: Graph, a: seq<string>, b: seq<string>)
    requires IsOrder(g, a) && IsOrder(g, b)
    ensures IsOrder(g, MoveToEnd(a, b))
    ensures forall x :: x in MoveToEnd(a, b) <==> x in a || x in b
  {
    MoveToEndIs(a, b);
    ForwardWithout(g, a, b);
    var kept := Without(a, b);
    assert forall x, y :: x in b && y in kept ==> !Edge(g, x, y);
    ForwardConcat(g, kept, b);
    DistinctConcat(kept, b);
  }

  lemma DistinctConcat(a: seq<string>, b: seq<string>)
    requires Distinct(a) && Distinct(b) && forall x :: x in a ==> x !in b
    ensures Distinct(a + b)
  {
    forall i, j | 0 <= i < j < |a + b| ensures (a + b)[i] != (a + b)[j] {
      if i < |a| <= j { assert a[i] in a && b[j - |a|] in b; }
    }
  }

  // ----- Link closures -----

  ghost predicate ReachedFrom(libs: Libraries, deps: seq<string>, x: string) {
    exists d :: d in deps && d in libs && Reach(DependencyGraph(libs), libs[d].name, x)
  }

  /** Every source library reachable from `deps`, once, before everything it depends on. */
  ghost predicate IsLinkOrder(libs: Libraries, deps: seq<string>, order: seq<string>) {
    && IsOrder(DependencyGraph(libs), order)
    && forall x :: x in order <==> ReachedFrom(libs, deps, x)
  }

  /** A single-pass linker meets every transitive provider of a library after the library. */
  lemma {:induction false} ProvidersFollow(libs: Libraries, deps: seq<string>, order: seq<string>, i: nat, j: nat)
    requires IsLinkOrder(libs, deps, order) && i < |order| && j < |order|
    requires Leads(DependencyGraph(libs), order[i], order[j])
    ensures i < j
  {
    var g := DependencyGraph(libs);
    var c :| Edge(g, order[i], c) && Reach(g, c, order[j]);
    var p :| Joins(g, p, c, order[j]);
    FollowPath(g, order, [order[i]] + p, i, j);
  }

  lemma {:induction false} FollowPath(g: Graph, order: seq<string>, p: seq<string>, i: nat, j: nat)
    requires IsOrder(g, order) && IsPath(g, p) && |p| > 1
    requires i < |order| && j < |order| && p[0] == order[i] && p[|p| - 1] == order[j]
    ensures i < j
    decreases |p|
  {
    assert Edge(g, p[0], p[1]);
    assert p[1] in order;
    var k :| 0 <= k < |order| && order[k] == p[1];
    if k <= i { ForwardAt(g, order, k, i); }
    if |p| > 2 {
      FollowPath(g, order, p[1..], k, j);
    } else {
      assert order[k] == order[j] && k == j;
    }
  }

  /** A library on top of the closure of its dependencies. */
  lemma ClosureOfLibrary(libs: Libraries, n: string, closure: seq<string>, active: set<string>)
    requires Canonical(libs) && n in libs && NoRepeat(DependencyGraph(libs), libs[n].name, active)
    requires IsLinkOrder(libs, libs[n].dependencies, closure)
    ensures IsOrder(DependencyGraph(libs), [libs[n].name] + closure)
    ensures forall x :: x in [libs[n].name] + closure <==> Reach(DependencyGraph(libs), libs[n].name, x)
  {
    var g, name := DependencyGraph(libs), libs[n].name;
    ReachSelf(g, name);
    forall x | x in closure ensures Leads(g, name, x) && Reach(g, name, x) {
      var d :| d in libs[n].dependencies && d in libs && Reach(g, libs[d].name, x);
      DependencyEdge(libs, n, d);
      ReachStep(g, name, libs[d].name, x);
    }
    forall x | Leads(g, name, x) ensures x in closure {
      var c :| Edge(g, name, c) && Reach(g, c, x);
      assert c in Providers(libs, libs[n].dependencies);
    }
    forall x | Reach(g, name, x) ensures x in [name] + closure { ReachCases(g, name, x); }
    NotBelowItself(g, name, active);
    hide Reach;
    ClosedOnTop(g, name, closure);
  }

  lemma ClosedOnTop(g: Graph, name: string, closure: seq<string>)
    requires IsOrder(g, closure) && name !in closure
    requires forall x :: x in closure <==> Leads(g, name, x)
    ensures IsOrder(g, [name] + closure)
  {
    forall y | Edge(g, name, y) ensures y in closure { LeadsEdge(g, name, y); }
    hide Leads;
    assert [name][..0] == [] && Forward(g, [name]);
    ForwardConcat(g, [name], closure);
    DistinctConcat([name], closure);
  }

  lemma NotBelowItself(g: Graph, n: string, active: set<string>)
    requires NoRepeat(g, n, active)
    ensures !Leads(g, n, n)
  {
    if Leads(g, n, n) {
      var c :| Edge(g, n, c) && Reach(g, c, n);
      var q :| Joins(g, q, c, n);
      assert ([n] + q)[..|q|][0] == n;
      NoRepeatAlong(g, n, active, [n] + q);
    }
  }

  class LinkClosures {
    const libraries: Libraries
    var links: map<string, seq<string>>

    constructor (libraries: Libraries)
      requires Canonical(libraries)
      ensures Valid() && this.libraries == libraries && links == map[]
    {
      this.libraries := libraries;
      links := map[];
    }

    /** Every memoised closure is a link order for that library's dependencies. */
    ghost predicate Valid()
      reads this
    {
      && Canonical(libraries)
      && forall n :: n in links ==> n in libraries && IsLinkOrder(libraries, libraries[n].dependencies, links[n])
    }

    method LinkInputs(name: string, ghost active: set<string>) returns (order: seq<string>)
      requires Valid() && name in libraries
      requires NoRepeat(DependencyGraph(libraries), libraries[name].name, active)
      modifies this`links
      decreases |DependencyGraph(libraries).Keys - active|, 0
      ensures Valid() && IsLinkOrder(libraries, libraries[name].dependencies, order)
    {
      hide IsLinkOrder, NoRepeat, DependencyGraph, Canonical;
      if name !in links {
        var library := libraries[name];
        Descend(libraries, name, active);
        order := OrderedLinks(library.dependencies, active + {library.name});
        links := links[name := order];
      }
      order := links[name];
    }

    method OrderedLinks(dependencies: seq<string>, ghost active: set<string>) returns (ordered: seq<string>)
      requires Valid()
      requires forall d :: d in dependencies && d in libraries ==>
                 NoRepeat(DependencyGraph(libraries), libraries[d].name, active)
      modifies this`links
      decreases |DependencyGraph(libraries).Keys - active|, 1
      ensures Valid() && IsLinkOrder(libraries, dependencies, ordered)
    {
      hide IsLinkOrder, NoRepeat, DependencyGraph;
      ordered := [];
      NoLinks(libraries);
      for k := 0 to |dependencies|
        invariant Valid() && IsLinkOrder(libraries, dependencies[..k], ordered)
      {
        var d := dependencies[k];
        assert dependencies[..k + 1] == dependencies[..k] + [d];
        if d in libraries {
          var closure := LinkInputs(d, active);
          ClosureOfLibrary(libraries, d, closure, active);
          AddProvider(libraries, dependencies[..k], ordered, d, [libraries[d].name] + closure);
          ordered := MoveToEnd(ordered, [libraries[d].name] + closure);
        } else {
          SkipNative(libraries, dependencies[..k], ordered, d);
        }
      }
      assert dependencies[..|dependencies|] == dependencies;
    }

    /** The order for a whole executable, when no dependency cycle is reachable. */
    method LinkOrderOf(dependencies: seq<string>) returns (ordered: seq<string>)
      requires Valid()
      requires forall d :: d in dependencies && d in libraries ==> !Cyclic(libraries, d)
      modifies this`links
      ensures Valid() && IsLinkOrder(libraries, dependencies, ordered)
    {
      forall d | d in dependencies && d in libraries
        ensures NoRepeat(DependencyGraph(libraries), libraries[d].name, {})
      {
        NoRepeatIffAcyclic(DependencyGraph(libraries), libraries[d].name);
      }
      ordered := OrderedLinks(dependencies, {});
    }
  }

  lemma Descend(libs: Libraries, n: string, active: set<string>)
    requires Canonical(libs) && n in libs && NoRepeat(DependencyGraph(libs), libs[n].name, active)
    ensures |DependencyGraph(libs).Keys - (active + {libs[n].name})| < |DependencyGraph(libs).Keys - active|
    ensures forall d :: d in libs[n].dependencies && d in libs ==>
              NoRepeat(DependencyGraph(libs), libs[d].name, active + {libs[n].name})
  {
    var g, name := DependencyGraph(libs), libs[n].name;
    Shrinks(g.Keys, active, name);
    forall d | d in libs[n].dependencies && d in libs ensures NoRepeat(g, libs[d].name, active + {name}) {
      DependencyEdge(libs, n, d);
    }
  }

  lemma NoLinks(libs: Libraries)
    ensures IsLinkOrder(libs, [], [])
  {}

  lemma SkipNative(libs: Libraries, deps: seq<string>, order: seq<string>, d: string)
    requires IsLinkOrder(libs, deps, order) && d !in libs
    ensures IsLinkOrder(libs, deps + [d], order)
  {
    hide Reach, IsOrder;
  }

  lemma AddProvider(libs: Libraries, deps: seq<string>, order: seq<string>, d: string, closure: seq<string>)
    requires IsLinkOrder(libs, deps, order) && d in libs && IsOrder(DependencyGraph(libs), closure)
    requires forall x :: x in closure <==> Reach(DependencyGraph(libs), libs[d].name, x)
    ensures IsLinkOrder(libs, deps + [d], MoveToEnd(order, closure))
  {
    MergeOrders(DependencyGraph(libs), order, closure);
    hide Reach, IsOrder, MoveToEnd;
    forall x ensures x in MoveToEnd(order, closure) <==> ReachedFrom(libs, deps + [d], x) {
      if e :| e in deps && e in libs && Reach(DependencyGraph(libs), libs[e].name, x) { assert e in deps + [d]; }
      assert d in deps + [d];
    }
  }
}
