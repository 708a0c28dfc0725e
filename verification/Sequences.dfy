/** Ordered, duplicate-free lists: Python's `sorted`, `dict.fromkeys` and `str.join`. */
module Sequences {

  ghost predicate Distinct<T>(s: seq<T>) {
    forall i, j :: 0 <= i < j < |s| ==> s[i] != s[j]
  }

  function ToSet<T>(s: seq<T>): set<T> {
    set x | x in s
  }

  /** Code-point order on strings, as Python compares them. */
  predicate Leq(a: string, b: string) {
    a == [] || (b != [] && (a[0] < b[0] || (a[0] == b[0] && Leq(a[1..], b[1..]))))
  }

  lemma {:induction false} LeqTotal(a: string, b: string)
    ensures Leq(a, b) || Leq(b, a)
    ensures Leq(a, b) && Leq(b, a) ==> a == b
  {
    if a != [] && b != [] && a[0] == b[0] {
      LeqTotal(a[1..], b[1..]);
      if a[1..] == b[1..] { assert a == [a[0]] + a[1..] == [b[0]] + b[1..] == b; }
    }
  }

  lemma {:induction false} LeqTrans(a: string, b: string, c: string)
    requires Leq(a, b) && Leq(b, c)
    ensures Leq(a, c)
  {
    if a != [] && a[0] == b[0] == c[0] { LeqTrans(a[1..], b[1..], c[1..]); }
  }

  /** At `k`, after a common prefix, `a` has the smaller character. */
  ghost predicate FirstSmaller(a: string, b: string, k: nat) {
    k < |a| && k < |b| && a[..k] == b[..k] && a[k] < b[k]
  }

  lemma FirstSmallerTail(a: string, b: string, k: nat)
    requires a != [] && b != []
    ensures FirstSmaller(a, b, 0) <==> a[0] < b[0]
    ensures var n := k + 1; FirstSmaller(a, b, n) <==> a[0] == b[0] && FirstSmaller(a[1..], b[1..], k)
  {
    var n := k + 1;
    if n < |a| && n < |b| {
      assert a[..n] == [a[0]] + a[1..][..k] && b[..n] == [b[0]] + b[1..][..k];
    }
  }

  /** One string is a prefix of the other, or they first differ at a smaller character. */
  lemma {:induction false} LeqIff(a: string, b: string)
    ensures Leq(a, b) <==> a <= b || exists k :: FirstSmaller(a, b, k)
  {
    hide FirstSmaller;
    if a == [] {
    } else if b == [] {
      NeverSmaller(a);
    } else {
      FirstSmallerTail(a, b, 0);
      forall k: nat ensures var n := k + 1; FirstSmaller(a, b, n) <==> a[0] == b[0] && FirstSmaller(a[1..], b[1..], k) {
        FirstSmallerTail(a, b, k);
      }
      LeqIff(a[1..], b[1..]);
      assert a == [a[0]] + a[1..] && b == [b[0]] + b[1..];
      if k: nat :| FirstSmaller(a, b, k) {
        if k > 0 {
          var n := k - 1;
          FirstSmallerTail(a, b, n);
        }
      }
    }
  }

  lemma NeverSmaller(a: string)
    ensures !exists k :: FirstSmaller(a, [], k)
  {}

  /** A total preorder, the comparison a sort key induces. */
  ghost predicate Preorder<T(!new)>(leq: (T, T) -> bool) {
    && (forall x, y :: leq(x, y) || leq(y, x))
    && (forall x, y, z :: leq(x, y) && leq(y, z) ==> leq(x, z))
  }

  lemma NamePreorder()
    ensures Preorder(Leq)
  {
    forall x: string, y: string ensures Leq(x, y) || Leq(y, x) { LeqTotal(x, y); }
    forall x: string, y: string, z: string | Leq(x, y) && Leq(y, z) ensures Leq(x, z) { LeqTrans(x, y, z); }
  }

  lemma PrefixStep<T>(s: seq<T>, k: nat)
    requires k < |s|
    ensures s[..k + 1] == s[..k] + [s[k]]
  {}

  ghost predicate SortedBy<T>(s: seq<T>, leq: (T, T) -> bool) {
    forall i, j :: 0 <= i < j < |s| ==> leq(s[i], s[j])
  }

  /** Insertion after every element that does not exceed `x`, which keeps equal keys in arrival order. */
  function Insert<T>(s: seq<T>, x: T, leq: (T, T) -> bool): (r: seq<T>)
    ensures multiset(r) == multiset(s) + multiset{x}
  {
    if s == [] then [x]
    else if leq(s[|s| - 1], x) then s + [x]
    else
      assert s == s[..|s| - 1] + [s[|s| - 1]];
      Insert(s[..|s| - 1], x, leq) + [s[|s| - 1]]
  }

  function Sort<T>(s: seq<T>, leq: (T, T) -> bool): (r: seq<T>)
    ensures multiset(r) == multiset(s)
  {
    if s == [] then []
    else
      assert s == s[..|s| - 1] + [s[|s| - 1]];
      Insert(Sort(s[..|s| - 1], leq), s[|s| - 1], leq)
  }

  lemma SameElements<T>(s: seq<T>, t: seq<T>)
    requires multiset(s) == multiset(t)
    ensures |s| == |t|
    ensures forall x :: x in s <==> x in t
  {
    assert |multiset(s)| == |multiset(t)|;
    forall x ensures x in s <==> x in t {
      assert x in s <==> x in multiset(s);
      assert x in t <==> x in multiset(t);
    }
  }

  lemma {:induction false} InsertSorted<T(!new)>(s: seq<T>, x: T, leq: (T, T) -> bool)
    requires Preorder(leq) && SortedBy(s, leq)
    ensures SortedBy(Insert(s, x, leq), leq)
  {
    if s != [] && !leq(s[|s| - 1], x) {
      var init, last := s[..|s| - 1], s[|s| - 1];
      InsertSorted(init, x, leq);
      var r := Insert(init, x, leq);
      SameElements(r, init + [x]);
      forall i | 0 <= i < |r| ensures leq(r[i], last) {
        assert r[i] in init + [x];
      }
    }
  }

  lemma {:induction false} SortSorted<T(!new)>(s: seq<T>, leq: (T, T) -> bool)
    requires Preorder(leq)
    ensures SortedBy(Sort(s, leq), leq)
  {
    if s != [] {
      SortSorted(s[..|s| - 1], leq);
      InsertSorted(Sort(s[..|s| - 1], leq), s[|s| - 1], leq);
    }
  }

  lemma DistinctAppend<T>(s: seq<T>, x: T)
    ensures Distinct(s + [x]) <==> Distinct(s) && x !in s
  {
    var t := s + [x];
    assert forall i :: 0 <= i < |s| ==> t[i] == s[i];
    assert t[|s|] == x;
  }

  lemma {:induction false} InsertDistinct<T>(s: seq<T>, x: T, leq: (T, T) -> bool)
    requires Distinct(s) && x !in s
    ensures Distinct(Insert(s, x, leq)) && ToSet(Insert(s, x, leq)) == ToSet(s) + {x}
  {
    SameElements(Insert(s, x, leq), s + [x]);
    DistinctAppend(s, x);
    if s != [] && !leq(s[|s| - 1], x) {
      var init, last := s[..|s| - 1], s[|s| - 1];
      assert s == init + [last];
      DistinctAppend(init, last);
      InsertDistinct(init, x, leq);
      assert last !in ToSet(Insert(init, x, leq));
      DistinctAppend(Insert(init, x, leq), last);
    }
  }

  lemma {:induction false} SortElements<T>(s: seq<T>, leq: (T, T) -> bool)
    ensures ToSet(Sort(s, leq)) == ToSet(s) && |Sort(s, leq)| == |s|
  {
    var r := Sort(s, leq);
    SameElements(s, r);
    assert ToSet(r) == ToSet(s);
  }

  lemma {:induction false} SortDistinct<T>(s: seq<T>, leq: (T, T) -> bool)
    requires Distinct(s)
    ensures Distinct(Sort(s, leq))
  {
    if s != [] {
      var init, last := s[..|s| - 1], s[|s| - 1];
      assert s == init + [last];
      DistinctAppend(init, last);
      SortDistinct(init, leq);
      SortElements(init, leq);
      assert last !in ToSet(init);
      InsertDistinct(Sort(init, leq), last, leq);
    }
  }

  /** The elements of a set in order, each once. */
  method SortedElements<T(!new, ==)>(elements: set<T>, leq: (T, T) -> bool) returns (r: seq<T>)
    requires Preorder(leq)
    ensures Distinct(r) && ToSet(r) == elements && SortedBy(r, leq)
  {
    r := [];
    var rest := elements;
    while rest != {}
      invariant rest <= elements && ToSet(r) == elements - rest
      invariant Distinct(r) && SortedBy(r, leq)
      decreases rest
    {
      var x :| x in rest;
      assert x !in ToSet(r);
      InsertSorted(r, x, leq);
      InsertDistinct(r, x, leq);
      r, rest := Insert(r, x, leq), rest - {x};
    }
  }

  /** `sorted(set)` on names. */
  method SortedNames(names: set<string>) returns (r: seq<string>)
    ensures Distinct(r) && ToSet(r) == names && SortedBy(r, Leq)
  {
    NamePreorder();
    r := SortedElements(names, Leq);
  }
}
