/**
 The generated package tree (build_tools/bazel_to_cmake/bazel_to_cmake.py): which directories join
 the native traversal, which directory adds which, and where each package ends up when CMake runs
 the generated files.
 */
module PackageTree {
  import opened Optional
  import opened Sequences

  /** A repository-relative directory; the empty path is the repository root. */
  type Dir = seq<string>

  function Parent(d: Dir): Dir
    requires d != []
  {
    d[..|d| - 1]
  }

  /** The last component; the root has none. */
  function Name(d: Dir): string {
    if d == [] then "" else d[|d| - 1]
  }

  ghost predicate Above(a: Dir, d: Dir) {
    |a| <= |d| && a == d[..|a|]
  }

  // ----- What the source walk finds -----

  /** A source tree: its directories and directory links, and which of them have a CMakeLists.txt, hold BUILD
      declarations, or hold declarations that need a native scope. */
  datatype Source = Source(
    directories: set<Dir>,
    links: set<Dir>,
    cmake: set<Dir>,
    declared: set<Dir>,
    scoped: set<Dir>)

  /** Directories are closed under parents, and the root is authored CMake. */
  ghost predicate SourceTree(s: Source) {
    && (forall d, n :: d in s.directories && 0 <= n <= |d| ==> d[..n] in s.directories)
    && [] in s.cmake
  }

  /** `os.walk` from a root does not enter directory links below it. */
  ghost predicate Walked(s: Source, root: Dir, d: Dir) {
    && d in s.directories && Above(root, d)
    && forall n :: |root| < n <= |d| ==> d[..n] !in s.links
  }

  ghost predicate Authored(s: Source, roots: set<Dir>, d: Dir) {
    && d in s.cmake
    && exists root :: root in roots
                      && (|| (d != [] && Above(d, root))
                          || Walked(s, root, d)
                          || (d != [] && d in s.links && Walked(s, root, Parent(d))))
  }

  ghost predicate Declared(s: Source, roots: set<Dir>, d: Dir) {
    && d in s.declared && d !in s.cmake
    && exists root :: root in roots && Walked(s, root, d)
  }

  /** The tables the walk fills. */
  datatype Tree = Tree(packages: set<Dir>, authored: set<Dir>, cmake: set<Dir>, scoped: set<Dir>) {
    function Entries(): set<Dir> { packages + authored }

    /** Directories that are native CMake scopes. */
    function Native(): set<Dir> { authored + (packages * scoped) }
  }

  /** What every walk establishes: authored directories own a CMakeLists.txt and packages do not, and each
      CMakeLists.txt above an entry was noticed. */
  ghost predicate Valid(t: Tree) {
    && t.packages !! t.cmake && t.authored <= t.cmake && [] in t.cmake
    && forall d, n :: d in t.Entries() && 0 < n < |d| && d[..n] in t.cmake ==> d[..n] in t.authored
  }

  lemma WalkedAbove(s: Source, roots: set<Dir>, root: Dir, d: Dir, n: nat)
    requires SourceTree(s) && root in roots && Walked(s, root, d) && 0 < n <= |d| && d[..n] in s.cmake
    ensures Authored(s, roots, d[..n])
  {
    var a := d[..n];
    if n <= |root| {
      assert a == root[..n];
    } else {
      assert forall k :: 0 <= k <= n ==> a[..k] == d[..k];
      assert Walked(s, root, a);
    }
  }

  /** The walk of any source tree from any roots gives valid tables. */
  lemma WalkIsValid(s: Source, roots: set<Dir>, t: Tree)
    requires SourceTree(s) && t.cmake == s.cmake && t.scoped == s.scoped
    requires forall d :: d in t.packages <==> Declared(s, roots, d)
    requires forall d :: d in t.authored <==> Authored(s, roots, d)
    ensures Valid(t)
  {
    forall d, n | d in t.Entries() && 0 < n < |d| && d[..n] in t.cmake ensures d[..n] in t.authored {
      var root :| root in roots
                  && (Walked(s, root, d) || Above(d, root) || (d in s.links && Walked(s, root, Parent(d))));
      if Walked(s, root, d) {
        WalkedAbove(s, roots, root, d, n);
      } else if Above(d, root) {
        assert d[..n] == root[..n];
        assert Above(d[..n], root);
      } else {
        assert Parent(d)[..n] == d[..n];
        WalkedAbove(s, roots, root, Parent(d), n);
      }
    }
  }

  // ----- Traversal directories -----

  /** A directory that must be passed through: not the root, an entry or authored. */
  predicate Plain(t: Tree, d: Dir) {
    d != [] && d !in t.Entries() && d !in t.cmake
  }

  /** `p` lies above `d` with only plain directories from `p` down to `d`. */
  ghost predicate NeededBy(t: Tree, p: Dir, d: Dir) {
    |p| < |d| && Above(p, d) && forall n :: |p| <= n < |d| ==> Plain(t, d[..n])
  }

  ghost predicate Needed(t: Tree, p: Dir, entries: set<Dir>) {
    exists d :: d in entries && NeededBy(t, p, d)
  }

  /** A directory already in the traversal brings everything needed above it. */
  lemma SharedAbove(t: Tree, p: Dir, q: Dir, d: Dir, e: Dir)
    requires NeededBy(t, p, d) && Above(p, q) && Above(q, d) && NeededBy(t, q, e)
    ensures NeededBy(t, p, e)
  {
    forall n | |p| <= n < |e| ensures Plain(t, e[..n]) {
      if n < |q| {
        assert e[..n] == q[..n] == d[..n];
      }
    }
    assert p == q[..|p|] == e[..|p|];
  }

  /** The plain directories above `d` down to depth `n` were added. */
  ghost predicate Climbed(t: Tree, d: Dir, before: set<Dir>, found: set<Dir>, n: nat) {
    && (forall m :: n <= m < |d| ==> Plain(t, d[..m]))
    && forall p :: p in found <==> p in before || (n <= |p| < |d| && Above(p, d))
  }

  lemma ClimbStep(t: Tree, d: Dir, before: set<Dir>, found: set<Dir>, n: nat)
    requires n < |d| && Climbed(t, d, before, found, n + 1)
    ensures d[..n] in found <==> d[..n] in before
    ensures Plain(t, d[..n]) ==> Climbed(t, d, before, found + {d[..n]}, n)
  {
    hide Plain;
    forall p ensures p in found + {d[..n]} <==> p in before || (n <= |p| < |d| && Above(p, d)) {
      if |p| == n && Above(p, d) {
        assert p == d[..n];
      }
    }
  }

  /** Climbs from one entry until the traversal already continues. */
  method Climb(t: Tree, d: Dir, before: set<Dir>, ghost done: set<Dir>) returns (found: set<Dir>)
    requires forall p :: p in before <==> Needed(t, p, done)
    ensures forall p :: p in found <==> Needed(t, p, done + {d})
  {
    hide Needed, NeededBy;
    found := before;
    var n := |d|;
    while n > 0
      invariant 0 <= n <= |d|
      invariant Climbed(t, d, before, found, n)
    {
      hide Needed, NeededBy, Climbed;
      var parent := d[..n - 1];
      ClimbStep(t, d, before, found, n - 1);
      if parent == [] || parent in t.Entries() || parent in found || parent in t.cmake {
        Stopped(t, d, before, done, n - 1);
        break;
      }
      found := found + {parent};
      n := n - 1;
    }
    AddEntry(t, d, before, found, done, n);
  }

  /** Nothing above the stopping point is needed by `d` that was not found before. */
  lemma Stopped(t: Tree, d: Dir, before: set<Dir>, done: set<Dir>, n: nat)
    requires n < |d| && (!Plain(t, d[..n]) || d[..n] in before)
    requires forall p :: p in before <==> Needed(t, p, done)
    ensures forall p :: NeededBy(t, p, d) && |p| <= n ==> p in before
  {
    var q := d[..n];
    forall p | NeededBy(t, p, d) && |p| <= n ensures p in before {
      assert Plain(t, d[..n]);
      var e :| e in done && NeededBy(t, q, e);
      assert p == q[..|p|];
      SharedAbove(t, p, q, d, e);
    }
  }

  lemma AddEntry(t: Tree, d: Dir, before: set<Dir>, found: set<Dir>, done: set<Dir>, n: nat)
    requires n <= |d|
    requires forall p :: p in before <==> Needed(t, p, done)
    requires Climbed(t, d, before, found, n)
    requires forall p :: NeededBy(t, p, d) && |p| < n ==> p in before
    ensures forall p :: p in found <==> Needed(t, p, done + {d})
  {
    forall p ensures p in found <==> Needed(t, p, done + {d}) {
      if p in before {
        var e :| e in done && NeededBy(t, p, e);
        assert e in done + {d};
      } else if p in found {
        assert NeededBy(t, p, d) && d in done + {d};
      }
      if Needed(t, p, done + {d}) {
        var e :| e in done + {d} && NeededBy(t, p, e);
        assert e in done ==> Needed(t, p, done);
      }
    }
  }

  /** The upward loop over all entries, in any order, with its early breaks. */
  method TraversalDirectories(t: Tree) returns (traversal: set<Dir>)
    ensures forall p :: p in traversal <==> Needed(t, p, t.Entries())
  {
    hide NeededBy;
    traversal := {};
    var rest := t.Entries();
    ghost var done: set<Dir> := {};
    while rest != {}
      invariant rest <= t.Entries() && done == t.Entries() - rest
      invariant forall p :: p in traversal <==> Needed(t, p, done)
      decreases rest
    {
      var directory :| directory in rest;
      traversal := Climb(t, directory, traversal, done);
      rest, done := rest - {directory}, done + {directory};
    }
    assert done == t.Entries();
  }

  // ----- Child lists -----

  /** Path order: by components. */
  predicate DirLeq(a: Dir, b: Dir) {
    a == [] || (b != [] && if a[0] == b[0] then DirLeq(a[1..], b[1..]) else Leq(a[0], b[0]))
  }

  /** Children of one directory are ordered by name. */
  lemma {:induction false} SiblingOrder(p: Dir, x: string, y: string)
    ensures DirLeq(p + [x], p + [y]) <==> Leq(x, y)
  {
    var a, b := p + [x], p + [y];
    if p == [] {
      assert a[1..] == [] && b[1..] == [];
      LeqTotal(x, y);
    } else {
      assert a[1..] == p[1..] + [x] && b[1..] == p[1..] + [y];
      SiblingOrder(p[1..], x, y);
    }
  }

  lemma {:induction false} DirTotal(a: Dir, b: Dir)
    ensures DirLeq(a, b) || DirLeq(b, a)
  {
    if a != [] && b != [] {
      LeqTotal(a[0], b[0]);
      DirTotal(a[1..], b[1..]);
    }
  }

  lemma {:induction false} DirTrans(a: Dir, b: Dir, c: Dir)
    requires DirLeq(a, b) && DirLeq(b, c)
    ensures DirLeq(a, c)
  {
    if a != [] {
      if a[0] == b[0] == c[0] {
        DirTrans(a[1..], b[1..], c[1..]);
      } else if a[0] != b[0] && b[0] != c[0] {
        LeqTrans(a[0], b[0], c[0]);
        LeqTotal(a[0], b[0]);
      }
    }
  }

  lemma DirPreorder()
    ensures Preorder(DirLeq)
  {
    forall x: Dir, y: Dir ensures DirLeq(x, y) || DirLeq(y, x) { DirTotal(x, y); }
    forall x: Dir, y: Dir, z: Dir | DirLeq(x, y) && DirLeq(y, z) ensures DirLeq(x, z) { DirTrans(x, y, z); }
  }

  type Children = map<Dir, seq<Dir>>

  ghost predicate Ordered(list: seq<Dir>) {
    list != [] && Distinct(list) && SortedBy(list, DirLeq)
  }

  /** Every non-root member is listed once, under its parent, in path order, and nothing else is. */
  ghost predicate ListsChildren(children: Children, members: set<Dir>) {
    Listed(children, members) && Justified(children, members) && forall p :: p in children ==> Ordered(children[p])
  }

  predicate ChildOf(children: Children, p: Dir, d: Dir) {
    p in children && d in children[p]
  }

  ghost predicate Listed(children: Children, members: set<Dir>) {
    forall d :: d in members && d != [] ==> ChildOf(children, Parent(d), d)
  }

  ghost predicate Justified(children: Children, members: set<Dir>) {
    forall p, d :: ChildOf(children, p, d) ==> d in members && d != [] && p == Parent(d)
  }

  lemma OrderedAppend(list: seq<Dir>, d: Dir)
    requires list == [] || Ordered(list)
    requires d !in list && forall x :: x in list ==> DirLeq(x, d)
    ensures Ordered(list + [d])
  {
    DistinctAppend(list, d);
    assert forall i :: 0 <= i < |list| ==> list[i] in list && (list + [d])[i] == list[i];
  }

  /** One step of the loop that fills the child lists, after the sorted prefix `order`. */
  lemma AppendChild(children: Children, order: seq<Dir>, d: Dir, next: Children)
    requires ListsChildren(children, ToSet(order)) && d !in order && d != []
    requires forall x :: x in order ==> DirLeq(x, d)
    requires next == children[Parent(d) := (if Parent(d) in children then children[Parent(d)] else []) + [d]]
    ensures ListsChildren(next, ToSet(order + [d]))
  {
    hide Ordered, DirLeq;
    var p := Parent(d);
    var list := if p in children then children[p] else [];
    var members := ToSet(order + [d]);
    assert members == ToSet(order) + {d};
    OrderedAppend(list, d) by {
      assert forall x :: x in list ==> ChildOf(children, p, x);
    }
    assert next[p] == list + [d];
    assert Justified(next, members) by {
      forall q, x | ChildOf(next, q, x) ensures x in members && x != [] && q == Parent(x) {
        assert (q == p && x == d) || ChildOf(children, q, x);
      }
    }
    assert Listed(next, members) by {
      assert next[p][|list|] == d;
      forall x | x in members && x != [] ensures ChildOf(next, Parent(x), x) {
        assert x == d || ChildOf(children, Parent(x), x);
      }
    }
  }

  method BuildChildren(members: set<Dir>) returns (children: Children)
    ensures ListsChildren(children, members)
  {
    DirPreorder();
    var order := SortedElements(members, DirLeq);
    children := map[];
    for k := 0 to |order|
      invariant ListsChildren(children, ToSet(order[..k]))
    {
      var d := order[k];
      var before := order[..k];
      assert order[..k + 1] == before + [d];
      assert forall x :: x in before ==> DirLeq(x, d);
      if d != [] {
        var list := if Parent(d) in children then children[Parent(d)] else [];
        var next := children[Parent(d) := list + [d]];
        AppendChild(children, before, d, next);
        children := next;
      } else {
        SkipRoot(children, before);
      }
    }
    assert order[..|order|] == order;
  }

  lemma SkipRoot(children: Children, order: seq<Dir>)
    requires ListsChildren(children, ToSet(order))
    ensures ListsChildren(children, ToSet(order + [[]]))
  {
    forall x | x in ToSet(order + [[]]) && x != [] ensures x in ToSet(order) {}
    assert ToSet(order) <= ToSet(order + [[]]);
  }

  // ----- Routes -----

  /** The members of the tree: entries and traversal directories. */
  ghost predicate Grown(t: Tree, traversal: set<Dir>) {
    Valid(t) && forall p :: p in traversal <==> Needed(t, p, t.Entries())
  }

  /** Directories whose CMake is generated, and so runs the emitted traversal. */
  predicate Generated(t: Tree, traversal: set<Dir>, d: Dir) {
    d in t.packages || d in traversal
  }

  /** Directories whose own CMake decides how to add their children. */
  predicate Anchor(t: Tree, d: Dir) {
    d == [] || d in t.authored
  }

  ghost predicate Chain(children: Children, c: seq<Dir>) {
    forall i :: 0 <= i < |c| - 1 ==> ChildOf(children, c[i], c[i + 1])
  }

  /** A way to reach `d`: from an anchor, along child edges, through generated directories only. */
  ghost predicate Route(t: Tree, traversal: set<Dir>, children: Children, c: seq<Dir>, d: Dir) {
    && |c| >= 2 && c[|c| - 1] == d && Anchor(t, c[0]) && Chain(children, c)
    && forall i :: 0 < i < |c| - 1 ==> Generated(t, traversal, c[i])
  }

  /** Every member other than the root hangs below an anchor or a generated directory, never both. */
  lemma ParentJoins(t: Tree, traversal: set<Dir>, d: Dir)
    requires Grown(t, traversal) && d != [] && (d in t.Entries() || d in traversal)
    ensures Anchor(t, Parent(d)) <==> !Generated(t, traversal, Parent(d))
  {
    var p := Parent(d);
    if !Anchor(t, p) && p !in t.packages {
      var e := if d in traversal then var e :| e in t.Entries() && NeededBy(t, d, e); e else d;
      assert Above(d, e) && d == e[..|d|] && p == e[..|p|];
      assert p !in t.cmake;
      assert Plain(t, p);
      assert forall n :: |d| <= n < |e| ==> Plain(t, e[..n]);
      assert NeededBy(t, p, e);
    }
    if p in traversal {
      var e :| e in t.Entries() && NeededBy(t, p, e);
      assert Plain(t, e[..|p|]);
    }
  }

  /** The route, climbing from `d` to its nearest anchor. */
  function RouteTo(t: Tree, d: Dir): (c: seq<Dir>)
    requires d != []
    ensures |c| >= 2 && c[|c| - 1] == d
    decreases |d|
  {
    var p := Parent(d);
    if Anchor(t, p) then [p, d] else RouteTo(t, p) + [d]
  }

  /** Every declared package, authored directory and traversal directory is reached. */
  lemma {:induction false} RouteExists(t: Tree, traversal: set<Dir>, children: Children, d: Dir)
    requires Grown(t, traversal) && ListsChildren(children, t.Entries() + traversal)
    requires d != [] && d in t.Entries() + traversal
    ensures Route(t, traversal, children, RouteTo(t, d), d)
    decreases |d|
  {
    var p := Parent(d);
    ParentJoins(t, traversal, d);
    if !Anchor(t, p) {
      RouteExists(t, traversal, children, p);
      var before, c := RouteTo(t, p), RouteTo(t, d);
      assert forall i :: 0 <= i < |before| ==> c[i] == before[i];
    }
  }

  /** There is only one route to it. */
  lemma {:induction false} RouteUnique(t: Tree, traversal: set<Dir>, children: Children, d: Dir, c: seq<Dir>)
    requires Grown(t, traversal) && ListsChildren(children, t.Entries() + traversal)
    requires Route(t, traversal, children, c, d)
    ensures d != [] && d in t.Entries() + traversal && c == RouteTo(t, d)
    decreases |c|
  {
    hide Valid, Needed, Ordered;
    var n := |c| - 2;
    assert ChildOf(children, c[n], c[n + 1]);
    var p := Parent(d);
    assert c[n] == p;
    ParentJoins(t, traversal, d);
    if n == 0 {
      assert c == [p, d];
    } else {
      var before := c[..n + 1];
      assert c == before + [d];
      RouteShortens(t, traversal, children, c, d);
      RouteUnique(t, traversal, children, p, before);
    }
  }

  lemma RouteShortens(t: Tree, traversal: set<Dir>, children: Children, c: seq<Dir>, d: Dir)
    requires Route(t, traversal, children, c, d) && |c| > 2
    ensures Route(t, traversal, children, c[..|c| - 1], c[|c| - 2])
  {
    hide Anchor, Generated;
    var before := c[..|c| - 1];
    assert forall i :: 0 <= i < |before| ==> before[i] == c[i];
    assert forall i :: 0 <= i < |before| - 1 ==> ChildOf(children, before[i], before[i + 1]);
  }

  /** Plans the tree: each member other than the root has exactly one route. */
  method PlanTree(t: Tree) returns (traversal: set<Dir>, children: Children)
    requires Valid(t)
    ensures Grown(t, traversal) && ListsChildren(children, t.Entries() + traversal)
    ensures forall d :: d in t.Entries() + traversal && d != [] ==>
                          Route(t, traversal, children, RouteTo(t, d), d)
    ensures forall c, d :: Route(t, traversal, children, c, d) ==>
                             d != [] && d in t.Entries() + traversal && c == RouteTo(t, d)
  {
    hide Valid, Needed, ListsChildren, Route, RouteTo;
    traversal := TraversalDirectories(t);
    children := BuildChildren(t.Entries() + traversal);
    forall d | d in t.Entries() + traversal && d != [] ensures Route(t, traversal, children, RouteTo(t, d), d) {
      RouteExists(t, traversal, children, d);
    }
    forall c, d | Route(t, traversal, children, c, d)
      ensures d != [] && d in t.Entries() + traversal && c == RouteTo(t, d)
    {
      RouteUnique(t, traversal, children, d, c);
    }
  }

  // ----- Running the generated tree -----

  /** Where CMake is: the package being configured, the binary directory of the native scope, and the package
      binary directory variable where it is set. Binary directories are relative to the build root. */
  datatype Context = Context(source: Dir, current: Dir, package: Option<Dir>)

  /** An emitted line: add a native subdirectory, or call a package function below one of the two variables. */
  datatype Line = AddDirectory(name: string) | CallPackage(child: Dir, fromCurrent: bool)

  function PackageBinary(x: Context): Dir {
    if x.package.Some? then x.package.value else x.current
  }

  function Emit(t: Tree, d: Dir, child: Dir): Line
  {
    if child in t.Native() then AddDirectory(Name(child)) else CallPackage(child, d in t.Native())
  }

  /** The lines a generated directory runs: one for each child, in order. */
  method Traversal(t: Tree, children: Children, d: Dir) returns (lines: seq<Line>)
    ensures d !in children ==> lines == []
    ensures d in children ==>
              |lines| == |children[d]| && forall i :: 0 <= i < |lines| ==> lines[i] == Emit(t, d, children[d][i])
  {
    lines := [];
    if d in children {
      var list := children[d];
      for k := 0 to |list|
        invariant |lines| == k && forall i :: 0 <= i < k ==> lines[i] == Emit(t, d, list[i])
      {
        lines := lines + [Emit(t, d, list[k])];
      }
    }
  }

  /** The macro that adds a member as subdirectory: a generated package that is not native is called as a
      fragment, anything else becomes a native scope. */
  function AddSubdirectory(t: Tree, x: Context, name: string): Context {
    var child := x.source + [name];
    var binary := PackageBinary(x) + [name];
    if child in t.Native() then Context(child, binary, None) else Context(child, x.current, Some(binary))
  }

  /** Runs a line. A call below an undefined package binary directory has no meaning. */
  function Run(t: Tree, x: Context, line: Line): Option<Context> {
    match line
    case AddDirectory(name) => Some(AddSubdirectory(t, x, name))
    case CallPackage(child, fromCurrent) =>
      if fromCurrent then Some(Context(child, x.current, Some(x.current + [Name(child)])))
      else if x.package.Some? then Some(Context(child, x.current, Some(x.package.value + [Name(child)])))
      else None
  }

  /** Where CMake is at the end of a route: the anchor's own CMake adds the first child, generated directories
      run the line emitted for the next one. */
  function Follow(t: Tree, c: seq<Dir>): Option<Context>
    requires |c| >= 1
  {
    var n := |c| - 1;
    if n == 0 then Some(Context(c[0], c[0], None))
    else
      var x := Follow(t, c[..n]);
      if x.None? then None
      else if n == 1 then Some(AddSubdirectory(t, x.value, Name(c[n])))
      else Run(t, x.value, Emit(t, c[n - 1], c[n]))
  }

  /** The nearest native directory at or above `d`, or the root. */
  function Scope(t: Tree, d: Dir): (r: Dir)
    ensures Above(r, d) && (r == [] || r in t.Native())
    ensures forall n :: |r| < n <= |d| ==> d[..n] !in t.Native()
    decreases |d|
  {
    if d == [] || d in t.Native() then d
    else
      var r := Scope(t, Parent(d));
      assert forall n :: 0 <= n < |d| ==> Parent(d)[..n] == d[..n];
      assert d[..|d|] == d;
      r
  }

  /** A package is a scope of its own exactly if its declarations need one; otherwise its scope is the nearest
      authored directory or such package above it. */
  lemma ScopeMeans(t: Tree, d: Dir)
    requires Valid(t) && d in t.packages
    ensures Scope(t, d) == d <==> d in t.scoped || d == []
    ensures var r := Scope(t, d);
            && Above(r, d) && (r == [] || r in t.authored || (r in t.packages && r in t.scoped))
            && forall n :: |r| < n <= |d| ==>
                 d[..n] !in t.authored && !(d[..n] in t.packages && d[..n] in t.scoped)
  {
    assert d[..|d|] == d;
  }

  /** The scope recorded for a package: the first native directory going up, or the root. */
  method RecordScope(t: Tree, d: Dir) returns (scope: Dir)
    ensures scope == Scope(t, d)
  {
    var n := |d|;
    assert d[..n] == d;
    while n > 0
      invariant 0 <= n <= |d|
      invariant Scope(t, d) == Scope(t, d[..n])
    {
      if d[..n] in t.Native() {
        return d[..n];
      }
      assert Parent(d[..n]) == d[..n - 1];
      n := n - 1;
    }
    return [];
  }

  ghost predicate Placed(t: Tree, d: Dir, x: Context) {
    x == Context(d, Scope(t, d), if d in t.Native() then None else Some(d))
  }

  /** An anchor placed at its own path places the child it adds. */
  lemma AnchorPlaces(t: Tree, d: Dir)
    requires d != [] && Anchor(t, Parent(d))
    ensures Placed(t, d, AddSubdirectory(t, Context(Parent(d), Parent(d), None), Name(d)))
  {
    assert d == Parent(d) + [Name(d)];
    assert Scope(t, Parent(d)) == Parent(d);
  }

  /** A generated directory that is itself placed places the next one. */
  lemma LinePlaces(t: Tree, d: Dir, x: Context)
    requires d != [] && Placed(t, Parent(d), x)
    ensures var y := Run(t, x, Emit(t, Parent(d), d)); y.Some? && Placed(t, d, y.value)
  {
    assert d == Parent(d) + [Name(d)];
    assert d in t.Native() ==> Scope(t, d) == d;
    assert d !in t.Native() ==> Scope(t, d) == Scope(t, Parent(d));
    assert Parent(d) in t.Native() ==> Scope(t, Parent(d)) == Parent(d);
  }

  /** Whatever the tree, each member is configured as itself, with its own path as package binary directory, in
      exactly the native scope that was recorded for it. */
  lemma {:induction false} Placement(t: Tree, traversal: set<Dir>, d: Dir)
    requires Grown(t, traversal) && d != [] && d in t.Entries() + traversal
    ensures var x := Follow(t, RouteTo(t, d)); x.Some? && Placed(t, d, x.value)
    decreases |d|
  {
    hide Placed, Grown, Run, AddSubdirectory, Emit, Scope;
    var p := Parent(d);
    var c := RouteTo(t, d);
    ParentJoins(t, traversal, d);
    if Anchor(t, p) {
      AnchorPlaces(t, d);
      assert c[..1] == [p];
      assert Follow(t, [p]) == Some(Context(p, p, None));
    } else {
      var before := RouteTo(t, p);
      assert c[..|c| - 1] == before && c[|c| - 2] == p;
      Placement(t, traversal, p);
      LinePlaces(t, d, Follow(t, before).value);
    }
  }
}
