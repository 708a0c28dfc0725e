/**
 `select()` is either evaluated against a configuration or carried along and emitted as
 `if/elseif/else` blocks. Both routes denote the same values.
 */
module SelectStaging {
  import opened Optional
  import opened Sequences
  import opened Conditions
  import opened Guards

  // ----- The configured route -----

  /** Values, or the errors: unsupported labels, several different matches, no match. */
  datatype Choice = Unmapped | Ambiguous | NoMatch | Chosen(values: seq<string>)

  function Matching(known: Mapping, branches: seq<Branch>, truth: Truth): (r: seq<seq<string>>)
    requires forall i :: 0 <= i < |branches| ==> branches[i].key in known
    ensures forall v :: v in r <==>
              exists i :: 0 <= i < |branches| && branches[i].values == v && Evaluate(known[branches[i].key], truth)
  {
    if branches == [] then []
    else
      var rest := Matching(known, branches[1..], truth);
      assert forall i :: 0 < i < |branches| ==> branches[1..][i - 1] == branches[i];
      if Evaluate(known[branches[0].key], truth) then [branches[0].values] + rest else rest
  }

  function Choose(known: Mapping, s: ConditionSelect, truth: Truth): Choice {
    if s.branches == [] || !KnownSelect(known, s) then Unmapped
    else
      var found := Matching(known, s.branches, truth);
      if found != [] then
        if exists i :: 1 <= i < |found| && found[i] != found[0] then Ambiguous else Chosen(found[0])
      else match s.fallback
        case None => NoMatch
        case Some(values) => Chosen(values)
  }

  /** Every branch that holds has these values. */
  ghost predicate AllAgree(known: Mapping, s: ConditionSelect, v: seq<string>, truth: Truth) {
    forall i :: 0 <= i < |s.branches| && Holds(known, s.branches[i].key, truth) ==> s.branches[i].values == v
  }

  /** Two branches hold with different values. */
  ghost predicate Disagree(known: Mapping, s: ConditionSelect, truth: Truth) {
    exists i, j :: 0 <= i < |s.branches| && 0 <= j < |s.branches| &&
                   Holds(known, s.branches[i].key, truth) && Holds(known, s.branches[j].key, truth) &&
                   s.branches[i].values != s.branches[j].values
  }

  /** Exactly when a configured select answers, and what. */
  lemma ChooseIff(known: Mapping, s: ConditionSelect, truth: Truth)
    ensures var c := Choose(known, s, truth);
            && (c.Unmapped? <==> s.branches == [] || !KnownSelect(known, s))
            && (!c.Unmapped? ==>
                  && (c.Ambiguous? <==> Disagree(known, s, truth))
                  && (c.NoMatch? <==> NoneHolds(known, s, truth) && s.fallback == None)
                  && (forall v :: c == Chosen(v) <==>
                        if NoneHolds(known, s, truth) then s.fallback == Some(v) else AllAgree(known, s, v, truth)))
  {
    hide Holds, Evaluate, Matching;
    if s.branches != [] && KnownSelect(known, s) {
      var found := Matching(known, s.branches, truth);
      MatchingHolds(known, s, truth);
      if found != [] {
        assert found[0] in found;
        var j :| 0 <= j < |s.branches| && s.branches[j].values == found[0] && Holds(known, s.branches[j].key, truth);
        if i :| 1 <= i < |found| && found[i] != found[0] {
          assert found[i] in found;
          var k :| 0 <= k < |s.branches| && s.branches[k].values == found[i] && Holds(known, s.branches[k].key, truth);
          assert Disagree(known, s, truth) && forall v :: !AllAgree(known, s, v, truth);
        } else {
          forall k | 0 <= k < |s.branches| && Holds(known, s.branches[k].key, truth)
            ensures s.branches[k].values == found[0]
          {
            assert s.branches[k].values in found;
          }
          assert forall v :: AllAgree(known, s, v, truth) <==> v == found[0];
        }
      }
    }
  }

  lemma MatchingHolds(known: Mapping, s: ConditionSelect, truth: Truth)
    requires KnownSelect(known, s)
    ensures var found := Matching(known, s.branches, truth);
            && (forall v :: v in found <==>
                  exists i ::
                    0 <= i < |s.branches| && s.branches[i].values == v && Holds(known, s.branches[i].key, truth))
            && (found == [] <==> NoneHolds(known, s, truth))
  {
    var found := Matching(known, s.branches, truth);
    forall v
      ensures v in found <==>
              exists i :: 0 <= i < |s.branches| && s.branches[i].values == v && Holds(known, s.branches[i].key, truth)
    {
      if i :| 0 <= i < |s.branches| && s.branches[i].values == v && Evaluate(known[s.branches[i].key], truth) {
        assert Holds(known, s.branches[i].key, truth);
      }
    }
    if found != [] {
      assert found[0] in found;
    }
    if i :| 0 <= i < |s.branches| && Holds(known, s.branches[i].key, truth) {
      assert s.branches[i].values in found;
    }
  }

  /** An unambiguous select keeps a target compatible exactly when it picks an empty branch. */
  lemma AllowsIffEmpty(known: Mapping, s: ConditionSelect, truth: Truth)
    requires Choose(known, s, truth).Chosen?
    ensures Allows(known, s, truth) <==> Choose(known, s, truth).values == []
  {
    var found := Matching(known, s.branches, truth);
    if found != [] {
      assert found[0] in found;
      var i :| 0 <= i < |s.branches| && s.branches[i].values == found[0] && Evaluate(known[s.branches[i].key], truth);
      assert Holds(known, s.branches[i].key, truth);
      forall j | 0 <= j < |s.branches| && Holds(known, s.branches[j].key, truth)
        ensures s.branches[j].values == found[0]
      {
        assert s.branches[j].values in found;
      }
    } else {
      forall j | 0 <= j < |s.branches| ensures !Holds(known, s.branches[j].key, truth) {
        assert s.branches[j].values !in found;
      }
    }
  }

  // ----- Concatenation -----

  /** A value expression of a BUILD file: lists and selects joined by `+`. */
  datatype Expr = Lit(values: seq<string>) | Sel(select: ConditionSelect) | Add(left: Expr, right: Expr)

  datatype Value = List(values: seq<string>) | One(select: ConditionSelect)
                 | Mix(unconditional: seq<string>, selects: seq<ConditionSelect>)

  function Configured(known: Mapping, e: Expr, truth: Truth): Option<seq<string>> {
    match e
    case Lit(values) => Some(values)
    case Sel(s) => (match Choose(known, s, truth) case Chosen(values) => Some(values) case _ => None)
    case Add(left, right) =>
      match (Configured(known, left, truth), Configured(known, right, truth)) {
        case (Some(a), Some(b)) => Some(a + b)
        case _ => None
      }
  }

  /** The `+` of lists, selects and mixtures; two mixtures have no common operator. */
  function Plus(a: Value, b: Value): Option<Value> {
    match (a, b)
    case (List(x), List(y)) => Some(List(x + y))
    case (List(x), One(s)) => Some(Mix(x, [s]))
    case (List(x), Mix(u, ss)) => Some(Mix(x + u, ss))
    case (One(s), List(y)) => Some(Mix(y, [s]))
    case (One(s), One(t)) => Some(Mix([], [s, t]))
    case (One(s), Mix(u, ss)) => Some(Mix(u, [s] + ss))
    case (Mix(u, ss), List(y)) => Some(Mix(u + y, ss))
    case (Mix(u, ss), One(t)) => Some(Mix(u, ss + [t]))
    case (Mix(_, _), Mix(_, _)) => None
  }

  function Staged(known: Mapping, e: Expr): Option<Value> {
    match e
    case Lit(values) => Some(List(values))
    case Sel(s) => if s.branches == [] || !KnownSelect(known, s) then None else Some(One(s))
    case Add(left, right) =>
      match (Staged(known, left), Staged(known, right)) {
        case (Some(a), Some(b)) => Plus(a, b)
        case _ => None
      }
  }

  predicate HasSelect(e: Expr) {
    e.Sel? || (e.Add? && (HasSelect(e.left) || HasSelect(e.right)))
  }

  /** Both operands of some `+` are themselves sums that involve a select. */
  predicate AddsMixtures(e: Expr) {
    e.Add? &&
    (AddsMixtures(e.left) || AddsMixtures(e.right) ||
     (e.left.Add? && HasSelect(e.left) && e.right.Add? && HasSelect(e.right)))
  }

  /** The staged value has the shape the expression shows. */
  lemma {:induction false} StagedShape(known: Mapping, e: Expr)
    requires Staged(known, e).Some?
    ensures Staged(known, e).value.Mix? <==> e.Add? && HasSelect(e)
    ensures Staged(known, e).value.List? <==> !HasSelect(e)
  {
    if e.Add? {
      StagedShape(known, e.left);
      StagedShape(known, e.right);
    }
  }

  /** Where the configured route succeeds, staging fails exactly on a sum of two mixtures. */
  lemma {:induction false} StagingDefined(known: Mapping, e: Expr, truth: Truth)
    requires Configured(known, e, truth).Some?
    ensures Staged(known, e).Some? <==> !AddsMixtures(e)
  {
    if e.Add? {
      StagingDefined(known, e.left, truth);
      StagingDefined(known, e.right, truth);
      if Staged(known, e.left).Some? { StagedShape(known, e.left); }
      if Staged(known, e.right).Some? { StagedShape(known, e.right); }
    }
  }

  /** Such a sum exists: both halves configure, the staged `+` does not. */
  lemma MixturesDoNotAdd(known: Mapping, s: ConditionSelect, truth: Truth)
    requires Choose(known, s, truth).Chosen?
    ensures var sum := Add(Add(Lit(["a"]), Sel(s)), Add(Lit(["b"]), Sel(s)));
            Configured(known, sum, truth).Some? && Staged(known, sum).None?
  {
    var a, b := Add(Lit(["a"]), Sel(s)), Add(Lit(["b"]), Sel(s));
    assert Configured(known, Sel(s), truth) == Some(Choose(known, s, truth).values);
    assert Staged(known, Sel(s)) == Some(One(s));
    assert Configured(known, Lit(["a"]), truth).Some? && Configured(known, Lit(["b"]), truth).Some?;
    assert Configured(known, a, truth).Some? && Configured(known, b, truth).Some?;
    assert HasSelect(Sel(s)) && a.Add? && HasSelect(a) && b.Add? && HasSelect(b);
    assert AddsMixtures(Add(a, b));
    StagingDefined(known, Add(a, b), truth);
  }

  /** What a staged value stands for under a configuration. */
  function Picked(known: Mapping, selects: seq<ConditionSelect>, truth: Truth): Option<seq<string>> {
    if selects == [] then Some([])
    else
      match (Picked(known, selects[..|selects| - 1], truth), Choose(known, selects[|selects| - 1], truth)) {
        case (Some(before), Chosen(values)) => Some(before + values)
        case _ => None
      }
  }

  function Parts(v: Value): (r: (seq<string>, seq<ConditionSelect>)) {
    match v
    case List(values) => (values, [])
    case One(s) => ([], [s])
    case Mix(u, ss) => (u, ss)
  }

  lemma {:induction false} PickedConcat(known: Mapping, a: seq<ConditionSelect>, b: seq<ConditionSelect>, truth: Truth)
    requires Picked(known, a, truth).Some? && Picked(known, b, truth).Some?
    ensures Picked(known, a + b, truth) == Some(Picked(known, a, truth).value + Picked(known, b, truth).value)
  {
    if b == [] {
      assert a + b == a && Picked(known, b, truth) == Some([]);
      assert Picked(known, a, truth).value + [] == Picked(known, a, truth).value;
    } else {
      var init, last := b[..|b| - 1], Choose(known, b[|b| - 1], truth).values;
      PickedConcat(known, a, init, truth);
      hide Choose;
      assert (a + b)[..|a + b| - 1] == a + init;
      var x, y := Picked(known, a, truth).value, Picked(known, init, truth).value;
      assert (x + y) + last == x + (y + last);
    }
  }

  lemma PickedOne(known: Mapping, s: ConditionSelect, truth: Truth)
    requires Choose(known, s, truth).Chosen?
    ensures Picked(known, [s], truth) == Some(Choose(known, s, truth).values)
  {
    assert [s][..0] == [] && Picked(known, [], truth) == Some([]);
    assert [] + Choose(known, s, truth).values == Choose(known, s, truth).values;
  }

  lemma PlusParts(a: Value, b: Value)
    requires Plus(a, b).Some?
    ensures var r := Parts(Plus(a, b).value);
            && multiset(r.0) == multiset(Parts(a).0) + multiset(Parts(b).0)
            && r.1 == Parts(a).1 + Parts(b).1
  {}

  /** Staging keeps the denotation: the same multiset of values both ways. */
  lemma {:induction false} StagingAgrees(known: Mapping, e: Expr, truth: Truth)
    requires Configured(known, e, truth).Some? && Staged(known, e).Some?
    ensures var (unconditional, selects) := Parts(Staged(known, e).value);
            && Picked(known, selects, truth).Some?
            && multiset(unconditional + Picked(known, selects, truth).value) ==
               multiset(Configured(known, e, truth).value)
  {
    match e
    case Lit(values) => assert values + [] == values;
    case Sel(s) => PickedOne(known, s, truth);
    case Add(left, right) =>
      StagingAgrees(known, left, truth);
      StagingAgrees(known, right, truth);
      var a, b := Staged(known, left).value, Staged(known, right).value;
      PlusParts(a, b);
      PickedConcat(known, Parts(a).1, Parts(b).1, truth);
  }

  // ----- The emitted blocks -----

  /** One `if/elseif/else/endif` chain; each arm appends to the block variable. */
  datatype Arm = Arm(condition: Text, appends: seq<string>)
  datatype Chain = Chain(arms: seq<Arm>, otherwise: seq<string>)

  /** The first arm whose condition text is true; a text that is no condition stops the run. */
  function RunArms(arms: seq<Arm>, otherwise: seq<string>, truth: Truth): Option<seq<string>> {
    if arms == [] then Some(otherwise)
    else match EvaluateText(arms[0].condition, truth)
      case None => None
      case Some(v) => if v then Some(arms[0].appends) else RunArms(arms[1..], otherwise, truth)
  }

  /** Runs the chains after `set(var "")`. An `else` without an `if` is no chain. */
  function Run(chains: seq<Chain>, truth: Truth): Option<seq<string>> {
    if chains == [] then Some([])
    else
      var last := chains[|chains| - 1];
      match (Run(chains[..|chains| - 1], truth), RunArms(last.arms, last.otherwise, truth)) {
        case (Some(before), Some(values)) => if last.arms == [] then None else Some(before + values)
        case _ => None
      }
  }

  /** How a rule converts a branch: sorting strings, or converting and sorting targets. */
  type Convert = seq<string> -> seq<string>

  function ArmsFrom(known: Mapping, branches: seq<Branch>, convert: Convert): (r: seq<Arm>)
    requires forall i :: 0 <= i < |branches| ==> branches[i].key in known
    ensures |r| == |branches|
  {
    if branches == [] then []
    else ArmsFrom(known, branches[..|branches| - 1], convert) +
         [Arm(Render(known[branches[|branches| - 1].key]), convert(branches[|branches| - 1].values))]
  }

  lemma {:induction false} ArmsSplit(known: Mapping, branches: seq<Branch>, convert: Convert)
    requires branches != [] && forall i :: 0 <= i < |branches| ==> branches[i].key in known
    ensures ArmsFrom(known, branches, convert) ==
            [Arm(Render(known[branches[0].key]), convert(branches[0].values))] + ArmsFrom(known, branches[1..], convert)
  {
    if |branches| > 1 {
      var n := |branches| - 1;
      ArmsSplit(known, branches[..n], convert);
      assert branches[..n][1..] == branches[1..][..n - 1];
    } else {
      assert branches[..0] == [] && branches[1..] == [];
    }
  }

  /** The chain takes the first true branch; every other true branch agrees with it. */
  lemma {:induction false} ArmsRun(known: Mapping, branches: seq<Branch>, otherwise: seq<string>, convert: Convert,
                                   truth: Truth)
    requires Ready(known, truth) && forall i :: 0 <= i < |branches| ==> branches[i].key in known
    ensures var found := Matching(known, branches, truth);
            RunArms(ArmsFrom(known, branches, convert), otherwise, truth) ==
            Some(if found == [] then otherwise else convert(found[0]))
    decreases |branches|
  {
    if branches != [] {
      ArmsSplit(known, branches, convert);
      RenderMeans(known[branches[0].key], truth);
      hide Render, EvaluateText;
      ArmsRun(known, branches[1..], otherwise, convert, truth);
      var arms := ArmsFrom(known, branches, convert);
      assert arms[1..] == ArmsFrom(known, branches[1..], convert);
    }
  }

  /** Emits one chain per select; an unsupported label stops the emission. */
  method EmitChains(known: Mapping, selects: seq<ConditionSelect>, convert: Convert)
    returns (chains: Option<seq<Chain>>)
    ensures chains.None? <==> exists i :: 0 <= i < |selects| && !KnownSelect(known, selects[i])
    ensures chains.Some? ==>
              && |chains.value| == |selects|
              && (forall i :: 0 <= i < |selects| ==> KnownSelect(known, selects[i]))
              && (forall i :: 0 <= i < |selects| ==> chains.value[i] == ChainFor(known, selects[i], convert))
  {
    var block: seq<Chain> := [];
    for k := 0 to |selects|
      invariant |block| == k
      invariant forall i :: 0 <= i < k ==>
                KnownSelect(known, selects[i]) && block[i] == ChainFor(known, selects[i], convert)
    {
      var arms: seq<Arm> := [];
      var branches := selects[k].branches;
      for m := 0 to |branches|
        invariant forall i :: 0 <= i < m ==> branches[i].key in known
        invariant arms == ArmsFrom(known, branches[..m], convert)
      {
        if branches[m].key !in known {
          return None;
        }
        assert branches[..m + 1][..m] == branches[..m];
        arms := arms + [Arm(Render(known[branches[m].key]), convert(branches[m].values))];
      }
      assert branches[..|branches|] == branches;
      var values := match selects[k].fallback case Some(v) => v case None => [];
      block := block + [Chain(arms, if values == [] then [] else convert(values))];
    }
    return Some(block);
  }

  function ChainFor(known: Mapping, s: ConditionSelect, convert: Convert): Chain
    requires KnownSelect(known, s)
  {
    var values := match s.fallback case Some(v) => v case None => [];
    Chain(ArmsFrom(known, s.branches, convert), if values == [] then [] else convert(values))
  }

  /** A conversion that treats the empty list as empty, as both emitters assume for `else`. */
  ghost predicate KeepsEmpty(convert: Convert) {
    convert([]) == []
  }

  lemma ChainRuns(known: Mapping, s: ConditionSelect, convert: Convert, truth: Truth)
    requires Ready(known, truth) && Choose(known, s, truth).Chosen? && KeepsEmpty(convert)
    ensures var c := ChainFor(known, s, convert);
            c.arms != [] && RunArms(c.arms, c.otherwise, truth) == Some(convert(Choose(known, s, truth).values))
  {
    var values := match s.fallback case Some(v) => v case None => [];
    ArmsRun(known, s.branches, if values == [] then [] else convert(values), convert, truth);
  }

  function ConvertedPicks(known: Mapping, selects: seq<ConditionSelect>, convert: Convert, truth: Truth): seq<string>
    requires Picked(known, selects, truth).Some?
  {
    if selects == [] then []
    else ConvertedPicks(known, selects[..|selects| - 1], convert, truth) +
         convert(Choose(known, selects[|selects| - 1], truth).values)
  }

  /** Running the emitted block appends the converted values of the branches the configuration picks. */
  lemma {:induction false} ChainsRun(known: Mapping, selects: seq<ConditionSelect>, chains: seq<Chain>,
                                     convert: Convert, truth: Truth)
    requires Ready(known, truth) && KeepsEmpty(convert) && Picked(known, selects, truth).Some?
    requires |chains| == |selects|
    requires forall i :: 0 <= i < |selects| ==>
             KnownSelect(known, selects[i]) && chains[i] == ChainFor(known, selects[i], convert)
    ensures Run(chains, truth) == Some(ConvertedPicks(known, selects, convert, truth))
  {
    if selects != [] {
      var n := |selects| - 1;
      ChainsRun(known, selects[..n], chains[..n], convert, truth);
      ChainRuns(known, selects[n], convert, truth);
      hide ChainFor, RunArms, Choose;
    }
  }

  // ----- End to end -----

  function SortIf(sort: bool): Convert {
    (values: seq<string>) => if sort then Sort(values, Leq) else values
  }

  /** What is written: the values sorted, or just as they were. */
  ghost predicate Written(sort: bool, values: seq<string>, r: seq<string>) {
    multiset(r) == multiset(values) && if sort then SortedBy(r, Leq) else r == values
  }

  lemma SortIfWrites(sort: bool, values: seq<string>)
    ensures Written(sort, values, SortIf(sort)(values))
  {
    NamePreorder();
    SortSorted(values, Leq);
  }

  lemma {:induction false} ArmsInOrder(known: Mapping, branches: seq<Branch>, sort: bool)
    requires forall i :: 0 <= i < |branches| ==> branches[i].key in known
    ensures var arms := ArmsFrom(known, branches, SortIf(sort));
            forall i :: 0 <= i < |branches| ==> Written(sort, branches[i].values, arms[i].appends)
  {
    hide Written, SortIf;
    if branches != [] {
      ArmsInOrder(known, branches[..|branches| - 1], sort);
      SortIfWrites(sort, branches[|branches| - 1].values);
    }
  }

  /** Each arm of a chain of strings appends the values of its own branch, sorted exactly if asked for. */
  lemma ChainInOrder(known: Mapping, s: ConditionSelect, sort: bool)
    requires KnownSelect(known, s)
    ensures var c := ChainFor(known, s, SortIf(sort));
            && |c.arms| == |s.branches|
            && (forall i :: 0 <= i < |c.arms| ==> Written(sort, s.branches[i].values, c.arms[i].appends))
            && Written(sort, if s.fallback.Some? then s.fallback.value else [], c.otherwise)
  {
    hide SortIf;
    ArmsInOrder(known, s.branches, sort);
    SortIfWrites(sort, if s.fallback.Some? then s.fallback.value else []);
  }

  lemma {:induction false} SortedPicks(known: Mapping, selects: seq<ConditionSelect>, sort: bool, truth: Truth)
    requires Picked(known, selects, truth).Some?
    ensures multiset(ConvertedPicks(known, selects, SortIf(sort), truth)) ==
            multiset(Picked(known, selects, truth).value)
  {
    if selects != [] {
      SortedPicks(known, selects[..|selects| - 1], sort, truth);
      hide Choose, Sort;
    }
  }

  /**
   For string lists: whenever the configured value exists and staging is defined, the emitted
   unconditional entries together with the block variable are the same multiset of values.
   */
  lemma StringsAgree(known: Mapping, e: Expr, chains: seq<Chain>, sort: bool, truth: Truth)
    requires Ready(known, truth) && Configured(known, e, truth).Some? && Staged(known, e).Some?
    requires var selects := Parts(Staged(known, e).value).1;
             |chains| == |selects| && forall i :: 0 <= i < |selects| ==>
               KnownSelect(known, selects[i]) && chains[i] == ChainFor(known, selects[i], SortIf(sort))
    ensures Run(chains, truth).Some?
    ensures multiset(SortIf(sort)(Parts(Staged(known, e).value).0) + Run(chains, truth).value) ==
            multiset(Configured(known, e, truth).value)
  {
    var (unconditional, selects) := Parts(Staged(known, e).value);
    StagingAgrees(known, e, truth);
    assert KeepsEmpty(SortIf(sort));
    ChainsRun(known, selects, chains, SortIf(sort), truth);
    SortedPicks(known, selects, sort, truth);
    hide Choose, Picked, Run, ChainFor, Configured, Staged, Sort;
    assert multiset(SortIf(sort)(unconditional)) == multiset(unconditional);
  }

  /** Each label converts to any number of targets; empty targets are dropped. */
  type TargetMap = string -> seq<string>

  function Targets(labels: seq<string>, convert: TargetMap): seq<string> {
    if labels == [] then [] else Targets(labels[..|labels| - 1], convert) + convert(labels[|labels| - 1])
  }

  lemma {:induction false} TargetsMember(labels: seq<string>, convert: TargetMap, x: string)
    ensures x in Targets(labels, convert) <==> exists l :: l in labels && x in convert(l)
  {
    if labels != [] {
      var init, last := labels[..|labels| - 1], labels[|labels| - 1];
      assert labels == init + [last];
      TargetsMember(init, convert, x);
    }
  }

  function SortedTargets(convert: TargetMap): Convert {
    (labels: seq<string>) => Sort(Targets(labels, convert), Leq)
  }

  function TargetSet(targets: seq<string>): set<string> {
    set t | t in targets && t != ""
  }

  lemma TargetSetConcat(a: seq<string>, b: seq<string>)
    ensures TargetSet(a + b) == TargetSet(a) + TargetSet(b)
  {}

  lemma Regroup(a: seq<string>, b: seq<string>, c: seq<string>)
    ensures (a + b) + c == a + (b + c)
  {}

  lemma {:induction false} TargetsConcat(a: seq<string>, b: seq<string>, convert: TargetMap)
    ensures Targets(a + b, convert) == Targets(a, convert) + Targets(b, convert)
  {
    if b == [] {
      assert a + b == a;
    } else {
      var init, last := b[..|b| - 1], b[|b| - 1];
      TargetsConcat(a, init, convert);
      assert (a + b)[..|a + b| - 1] == a + init && (a + b)[|a + b| - 1] == last;
      Regroup(Targets(a, convert), Targets(init, convert), convert(last));
    }
  }

  lemma SortedTargetSet(labels: seq<string>, convert: TargetMap)
    ensures TargetSet(SortedTargets(convert)(labels)) == TargetSet(Targets(labels, convert))
  {
    SameElements(Sort(Targets(labels, convert), Leq), Targets(labels, convert));
  }

  lemma SameTargets(a: seq<string>, b: seq<string>, convert: TargetMap)
    requires multiset(a) == multiset(b)
    ensures TargetSet(Targets(a, convert)) == TargetSet(Targets(b, convert))
  {
    SameElements(a, b);
    forall x ensures x in Targets(a, convert) <==> x in Targets(b, convert) {
      TargetsMember(a, convert, x);
      TargetsMember(b, convert, x);
    }
  }

  lemma {:induction false} TargetPicks(known: Mapping, selects: seq<ConditionSelect>, convert: TargetMap, truth: Truth)
    requires Picked(known, selects, truth).Some?
    ensures TargetSet(ConvertedPicks(known, selects, SortedTargets(convert), truth)) ==
            TargetSet(Targets(Picked(known, selects, truth).value, convert))
  {
    if selects != [] {
      var init, values := selects[..|selects| - 1], Choose(known, selects[|selects| - 1], truth).values;
      TargetPicks(known, init, convert, truth);
      hide Choose, Targets, SortedTargets, TargetSet;
      TargetSetConcat(ConvertedPicks(known, init, SortedTargets(convert), truth), SortedTargets(convert)(values));
      SortedTargetSet(values, convert);
      TargetsConcat(Picked(known, init, truth).value, values, convert);
      TargetSetConcat(Targets(Picked(known, init, truth).value, convert), Targets(values, convert));
    }
  }

  lemma TargetsKeepEmpty(convert: TargetMap)
    ensures KeepsEmpty(SortedTargets(convert))
  {}

  /** For dependency lists: the same set of converted targets both ways. */
  lemma TargetsAgree(known: Mapping, e: Expr, chains: seq<Chain>, convert: TargetMap, truth: Truth)
    requires Ready(known, truth) && Configured(known, e, truth).Some? && Staged(known, e).Some?
    requires var selects := Parts(Staged(known, e).value).1;
             |chains| == |selects| && forall i :: 0 <= i < |selects| ==>
               KnownSelect(known, selects[i]) && chains[i] == ChainFor(known, selects[i], SortedTargets(convert))
    ensures Run(chains, truth).Some?
    ensures TargetSet(Targets(Parts(Staged(known, e).value).0, convert)) + TargetSet(Run(chains, truth).value) ==
            TargetSet(Targets(Configured(known, e, truth).value, convert))
  {
    hide *;
    var (unconditional, selects) := Parts(Staged(known, e).value);
    StagingAgrees(known, e, truth);
    TargetsKeepEmpty(convert);
    ChainsRun(known, selects, chains, SortedTargets(convert), truth);
    TargetPicks(known, selects, convert, truth);
    var picked := Picked(known, selects, truth).value;
    TargetsConcat(unconditional, picked, convert);
    TargetSetConcat(Targets(unconditional, convert), Targets(picked, convert));
    SameTargets(unconditional + picked, Configured(known, e, truth).value, convert);
  }
}
