/** The walk over the source tree that finds packages and authored directories. */
module SourceWalk {
  import opened Optional
  import opened PackageTree

  /** What `os.walk` lists below `d`: directories and links to directories. */
  function Children(s: Source, d: Dir): set<Dir> {
    set c | c in s.directories + s.links && c != [] && Parent(c) == d
  }

  ghost function Under(s: Source, d: Dir): set<Dir> {
    set e | e in s.directories && Above(d, e)
  }

  lemma UnderChild(s: Source, d: Dir, c: Dir)
    requires c != [] && Parent(c) == d && d in s.directories
    ensures Under(s, c) < Under(s, d)
  {
    assert d in Under(s, d) && d !in Under(s, c);
    forall e | e in Under(s, c) ensures e in Under(s, d) {
      assert e[..|d|] == e[..|c|][..|d|];
    }
  }

  /** Below `d`, the walk enters what it enters below its children that are not links. */
  lemma WalkedStep(s: Source, d: Dir, e: Dir)
    requires SourceTree(s) && d in s.directories
    ensures Walked(s, d, e) <==>
            e == d || (|d| < |e| && var c := e[..|d| + 1];
                       c in Children(s, d) - s.links && Walked(s, c, e))
  {
    if e == d {
      assert d[..|d|] == d;
    } else if |d| < |e| {
      var c := e[..|d| + 1];
      assert Parent(c) == e[..|d|];
    }
  }

  /** The entries below `d` whose walk has ended, when the children in `todo` are still to come. */
  ghost predicate Done(s: Source, d: Dir, todo: set<Dir>, e: Dir) {
    e == d || (Walked(s, d, e) && |d| < |e| && e[..|d| + 1] !in todo)
  }

  lemma DoneNext(s: Source, d: Dir, todo: set<Dir>, c: Dir, e: Dir)
    requires SourceTree(s) && d in s.directories && c in todo && todo <= Children(s, d) - s.links
    ensures Done(s, d, todo - {c}, e) <==> Done(s, d, todo, e) || Walked(s, c, e)
  {
    WalkedStep(s, d, e);
    if Walked(s, c, e) {
      assert e[..|d| + 1] == c;
    }
  }

  lemma DoneEnds(s: Source, d: Dir, e: Dir)
    requires SourceTree(s) && d in s.directories
    ensures Done(s, d, {}, e) <==> Walked(s, d, e)
    ensures Done(s, d, Children(s, d) - s.links, e) <==> e == d
  {
    WalkedStep(s, d, e);
  }

  /** A package is a declared directory without CMake of its own. */
  ghost predicate Found(s: Source, e: Dir) {
    e in s.declared && e !in s.cmake
  }

  /** The walk of one directory and everything below it, top down. */
  method Walk(s: Source, d: Dir, packages: set<Dir>, authored: set<Dir>) returns (p: set<Dir>, a: set<Dir>)
    requires SourceTree(s) && d in s.directories
    ensures forall e :: e in p <==> e in packages || (Found(s, e) && Walked(s, d, e))
    ensures forall e :: e in a <==>
              || e in authored
              || (e in s.cmake && (Walked(s, d, e) || (e in s.links && e != [] && Walked(s, d, Parent(e)))))
    decreases Under(s, d)
  {
    a := if d in s.cmake then authored + {d} else authored;
    var links := Children(s, d) * s.links;
    while links != {}
      invariant links <= Children(s, d) * s.links
      invariant forall e :: e in a <==>
                  e in authored || (e in s.cmake && (e == d || e in Children(s, d) * s.links - links))
    {
      var c :| c in links;
      if c in s.cmake { a := a + {c}; }
      links := links - {c};
    }
    p := if d in s.declared && d !in s.cmake then packages + {d} else packages;
    var todo := Children(s, d) - s.links;
    forall e ensures Done(s, d, todo, e) <==> e == d { DoneEnds(s, d, e); }
    while todo != {}
      invariant todo <= Children(s, d) - s.links
      invariant forall e :: e in p <==> e in packages || (Found(s, e) && Done(s, d, todo, e))
      invariant forall e :: e in a <==>
                  || e in authored
                  || (&& e in s.cmake
                      && (Done(s, d, todo, e) || (e in s.links && e != [] && Done(s, d, todo, Parent(e)))))
    {
      var c :| c in todo;
      UnderChild(s, d, c);
      p, a := Walk(s, c, p, a);
      forall e ensures Done(s, d, todo - {c}, e) <==> Done(s, d, todo, e) || Walked(s, c, e) {
        DoneNext(s, d, todo, c, e);
      }
      todo := todo - {c};
    }
    forall e ensures Done(s, d, {}, e) <==> Walked(s, d, e) { DoneEnds(s, d, e); }
  }

  /** The CMake directories from a root upwards, without the repository root. */
  method ClimbRoot(s: Source, root: Dir, authored: set<Dir>) returns (a: set<Dir>)
    ensures forall e :: e in a <==> e in authored || (e in s.cmake && e != [] && Above(e, root))
  {
    a := authored;
    var n := |root|;
    while n > 0
      invariant 0 <= n <= |root|
      invariant forall e :: e in a <==> e in authored || (e in s.cmake && |e| > n && Above(e, root))
    {
      if root[..n] in s.cmake { a := a + {root[..n]}; }
      n := n - 1;
    }
  }

  ghost function Roots(roots: seq<Dir>): set<Dir> {
    set r | r in roots
  }

  /** The whole walk fails exactly on a root that is no directory, and otherwise fills the tables exactly. */
  method EvaluatePackages(s: Source, roots: seq<Dir>) returns (r: Option<Tree>)
    requires SourceTree(s)
    ensures r.None? <==> exists i :: 0 <= i < |roots| && roots[i] !in s.directories
    ensures r.Some? ==>
              && (forall d :: d in r.value.packages <==> Declared(s, Roots(roots), d))
              && (forall d :: d in r.value.authored <==> Authored(s, Roots(roots), d))
              && Valid(r.value)
  {
    var packages, authored: set<Dir> := {}, {};
    for i := 0 to |roots|
      invariant forall j :: 0 <= j < i ==> roots[j] in s.directories
      invariant forall d :: d in packages <==> Declared(s, Roots(roots[..i]), d)
      invariant forall d :: d in authored <==> Authored(s, Roots(roots[..i]), d)
    {
      var root := roots[i];
      if root !in s.directories { return None; }
      authored := ClimbRoot(s, root, authored);
      packages, authored := Walk(s, root, packages, authored);
      assert Roots(roots[..i + 1]) == Roots(roots[..i]) + {root};
    }
    assert roots[..|roots|] == roots;
    var t := Tree(packages, authored, s.cmake, s.scoped);
    WalkIsValid(s, Roots(roots), t);
    return Some(t);
  }
}
