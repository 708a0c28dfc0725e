/** First-occurrence deduplication: the keys of `dict.fromkeys`, and updates of such a dictionary. */
module Dedupe {
  import opened Sequences

  /** The keys after inserting `s` in order into a dictionary whose keys are `keys`. */
  function Extend(keys: seq<string>, s: seq<string>): (r: seq<string>)
    ensures keys <= r
    ensures Distinct(keys) ==> Distinct(r)
    ensures forall x :: x in r <==> x in keys || x in s
  {
    if s == [] then keys
    else
      assert s == s[..|s| - 1] + [s[|s| - 1]];
      var r, x := Extend(keys, s[..|s| - 1]), s[|s| - 1];
      if x in r then r else DistinctAppend(r, x); r + [x]
  }

  function FromKeys(s: seq<string>): (r: seq<string>)
    ensures Distinct(r)
    ensures forall x :: x in r <==> x in s
  {
    Extend([], s)
  }

  lemma {:induction false} ExtendConcat(keys: seq<string>, a: seq<string>, b: seq<string>)
    ensures Extend(keys, a + b) == Extend(Extend(keys, a), b)
  {
    if b == [] {
      assert a + b == a;
    } else {
      ExtendConcat(keys, a, b[..|b| - 1]);
      assert (a + b)[..|a + b| - 1] == a + b[..|b| - 1];
    }
  }

  /** Deduplicating a part early does not change the whole. */
  lemma {:induction false} ExtendDeduped(keys: seq<string>, s: seq<string>)
    ensures Extend(keys, FromKeys(s)) == Extend(keys, s)
  {
    if s != [] {
      var init, x := s[..|s| - 1], s[|s| - 1];
      assert s == init + [x];
      ExtendDeduped(keys, init);
      if x !in FromKeys(init) {
        assert FromKeys(s) == FromKeys(init) + [x];
        ExtendConcat(keys, FromKeys(init), [x]);
        ExtendConcat(keys, init, [x]);
      } else {
        assert x in Extend(keys, init);
      }
    }
  }

  /** Later values never move earlier ones: the order is that of first occurrence. */
  lemma FromKeysPrefix(a: seq<string>, b: seq<string>)
    ensures FromKeys(a) <= FromKeys(a + b)
    ensures forall x :: x in b && x !in a ==> x in FromKeys(a + b)[|FromKeys(a)|..]
  {
    ExtendConcat([], a, b);
    var r, n := FromKeys(a + b), |FromKeys(a)|;
    assert r == r[..n] + r[n..] && r[..n] == FromKeys(a);
  }

  lemma FromKeysOne(x: string)
    ensures FromKeys([x]) == [x]
  {
    var s := [x];
    assert s[..|s| - 1] == [] && Extend([], s[..|s| - 1]) == [];
  }

  lemma {:induction false} FromKeysConcat(a: seq<string>, b: seq<string>)
    ensures FromKeys(FromKeys(a) + FromKeys(b)) == FromKeys(a + b)
  {
    ExtendConcat([], FromKeys(a), FromKeys(b));
    ExtendConcat([], a, b);
    ExtendDeduped([], a);
    ExtendDeduped(FromKeys(a), b);
  }
}
