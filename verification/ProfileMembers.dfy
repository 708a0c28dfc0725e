/**
 Profile sets declared with selects: the conditional members that are built from staged targets,
 and why expanding them gives what configured evaluation of the same declarations gives.
 */
module ProfileMembers {
  import opened Optional
  import opened Digraph
  import opened Conditions
  import opened Guards
  import opened SelectStaging
  import opened Profiles

  /** How a target is written in full. */
  type Relabel = string -> string

  function Under(names: seq<string>, relabel: Relabel, c: Condition): seq<Member> {
    seq(|names|, i requires 0 <= i < |names| => Member(relabel(names[i]), c))
  }

  function BranchMembers(known: Mapping, branches: seq<Branch>, relabel: Relabel): seq<Member>
    requires forall i :: 0 <= i < |branches| ==> branches[i].key in known
  {
    if branches == [] then []
    else
      var last := branches[|branches| - 1];
      BranchMembers(known, branches[..|branches| - 1], relabel) + Under(last.values, relabel, known[last.key])
  }

  /** Each branch under its own condition, and the default under the negation of all of them. */
  function SelectMembers(known: Mapping, s: ConditionSelect, relabel: Relabel): seq<Member>
    requires KnownSelect(known, s)
  {
    BranchMembers(known, s.branches, relabel) +
    match s.fallback
    case None => []
    case Some(values) => Under(values, relabel, Not(Any(Predicates(known, s, false))))
  }

  predicate AllKnownSelects(known: Mapping, selects: seq<ConditionSelect>) {
    forall i :: 0 <= i < |selects| ==> KnownSelect(known, selects[i])
  }

  function SelectsMembers(known: Mapping, selects: seq<ConditionSelect>, relabel: Relabel): seq<Member>
    requires AllKnownSelects(known, selects)
  {
    if selects == [] then []
    else
      SelectsMembers(known, selects[..|selects| - 1], relabel) +
      SelectMembers(known, selects[|selects| - 1], relabel)
  }

  function MembersOf(known: Mapping, targets: Value, relabel: Relabel): seq<Member>
    requires AllKnownSelects(known, Parts(targets).1)
  {
    Under(Parts(targets).0, relabel, All([])) + SelectsMembers(known, Parts(targets).1, relabel)
  }

  // ----- Collecting members -----

  method CollectSelectMembers(known: Mapping, s: ConditionSelect, relabel: Relabel) returns (result: seq<Member>)
    requires KnownSelect(known, s)
    ensures result == SelectMembers(known, s, relabel)
  {
    result := [];
    for k := 0 to |s.branches|
      invariant result == BranchMembers(known, s.branches[..k], relabel)
    {
      assert s.branches[..k + 1][..k] == s.branches[..k];
      result := result + Under(s.branches[k].values, relabel, known[s.branches[k].key]);
    }
    assert s.branches[..|s.branches|] == s.branches;
    if s.fallback.Some? {
      result := result + Under(s.fallback.value, relabel, Not(Any(Predicates(known, s, false))));
    } else {
      assert result + [] == result;
    }
  }

  method CollectMembers(known: Mapping, targets: Value, relabel: Relabel) returns (result: seq<Member>)
    requires AllKnownSelects(known, Parts(targets).1)
    ensures result == MembersOf(known, targets, relabel)
  {
    hide SelectMembers;
    var unconditional, selects := Parts(targets).0, Parts(targets).1;
    result := Under(unconditional, relabel, All([]));
    ghost var first := result;
    assert first + [] == first;
    for k := 0 to |selects|
      invariant result == first + SelectsMembers(known, selects[..k], relabel)
    {
      assert selects[..k + 1][..k] == selects[..k];
      var more := CollectSelectMembers(known, selects[k], relabel);
      ghost var before := SelectsMembers(known, selects[..k], relabel);
      assert (first + before) + more == first + (before + more);
      result := result + more;
    }
    assert selects[..|selects|] == selects;
  }

  // ----- What the members offer -----

  ghost predicate Named(names: seq<string>, relabel: Relabel, x: string) {
    exists i :: 0 <= i < |names| && relabel(names[i]) == x
  }

  /** `x` is a member whose condition holds. */
  ghost predicate Offers(members: seq<Member>, x: string, truth: Truth) {
    exists i :: 0 <= i < |members| && members[i].name == x && Evaluate(members[i].selected, truth)
  }

  lemma OffersConcat(a: seq<Member>, b: seq<Member>, x: string, truth: Truth)
    ensures Offers(a + b, x, truth) <==> Offers(a, x, truth) || Offers(b, x, truth)
  {
    hide Evaluate;
    var all := a + b;
    if i :| 0 <= i < |a| && a[i].name == x && Evaluate(a[i].selected, truth) {
      assert all[i] == a[i];
    }
    if i :| 0 <= i < |b| && b[i].name == x && Evaluate(b[i].selected, truth) {
      assert all[|a| + i] == b[i];
    }
  }

  lemma UnderOffers(names: seq<string>, relabel: Relabel, c: Condition, x: string, truth: Truth)
    ensures Offers(Under(names, relabel, c), x, truth) <==> Evaluate(c, truth) && Named(names, relabel, x)
  {
    hide Evaluate;
    var members := Under(names, relabel, c);
    if Evaluate(c, truth) && Named(names, relabel, x) {
      var i :| 0 <= i < |names| && relabel(names[i]) == x;
      assert members[i] == Member(x, c);
    }
  }

  ghost predicate BranchOffers(known: Mapping, branches: seq<Branch>, relabel: Relabel, x: string, truth: Truth) {
    exists i :: 0 <= i < |branches| && Holds(known, branches[i].key, truth) && Named(branches[i].values, relabel, x)
  }

  lemma {:induction false} BranchesOffer(known: Mapping, branches: seq<Branch>, relabel: Relabel, x: string,
                                         truth: Truth)
    requires forall i :: 0 <= i < |branches| ==> branches[i].key in known
    ensures Offers(BranchMembers(known, branches, relabel), x, truth) <==>
            BranchOffers(known, branches, relabel, x, truth)
  {
    hide Offers, Named, Evaluate, Under;
    if branches == [] {
      NoOffers(x, truth);
    } else {
      var n := |branches| - 1;
      var init, last := branches[..n], branches[n];
      BranchesOffer(known, init, relabel, x, truth);
      UnderOffers(last.values, relabel, known[last.key], x, truth);
      OffersConcat(BranchMembers(known, init, relabel), Under(last.values, relabel, known[last.key]), x, truth);
      assert forall i :: 0 <= i < n ==> init[i] == branches[i];
    }
  }

  lemma NoOffers(x: string, truth: Truth)
    ensures !Offers([], x, truth)
  {}

  /** Where a configured select picks a value, the members on offer are exactly the picked ones. */
  lemma SelectOffers(known: Mapping, s: ConditionSelect, relabel: Relabel, x: string, truth: Truth)
    requires Choose(known, s, truth).Chosen?
    ensures KnownSelect(known, s)
    ensures Offers(SelectMembers(known, s, relabel), x, truth) <==> Named(Choose(known, s, truth).values, relabel, x)
  {
    hide Offers, Named, Evaluate, Under, BranchMembers, Predicates, Choose;
    ChosenBranches(known, s, truth);
    BranchesOffer(known, s.branches, relabel, x, truth);
    if s.fallback.Some? {
      var otherwise := Not(Any(Predicates(known, s, false)));
      DefaultHolds(known, s, truth);
      UnderOffers(s.fallback.value, relabel, otherwise, x, truth);
      OffersConcat(BranchMembers(known, s.branches, relabel), Under(s.fallback.value, relabel, otherwise), x, truth);
    } else {
      assert SelectMembers(known, s, relabel) == BranchMembers(known, s.branches, relabel);
    }
  }

  /** Every branch that holds has the chosen values; if none does, they are the default's. */
  lemma ChosenBranches(known: Mapping, s: ConditionSelect, truth: Truth)
    requires Choose(known, s, truth).Chosen?
    ensures KnownSelect(known, s)
    ensures var values := Choose(known, s, truth).values;
            && (forall i :: 0 <= i < |s.branches| && Holds(known, s.branches[i].key, truth) ==>
               s.branches[i].values == values)
            && (NoneHolds(known, s, truth) ==> s.fallback == Some(values))
  {
    var found := Matching(known, s.branches, truth);
    forall j | 0 <= j < |s.branches| && Holds(known, s.branches[j].key, truth)
      ensures found != [] && s.branches[j].values == found[0]
    {
      assert s.branches[j].values in found;
    }
    if found != [] {
      assert found[0] in found;
      var i :| 0 <= i < |s.branches| && s.branches[i].values == found[0] && Evaluate(known[s.branches[i].key], truth);
      assert Holds(known, s.branches[i].key, truth);
    }
  }

  lemma DefaultHolds(known: Mapping, s: ConditionSelect, truth: Truth)
    requires KnownSelect(known, s)
    ensures Evaluate(Not(Any(Predicates(known, s, false))), truth) <==> NoneHolds(known, s, truth)
  {
    var all := Predicates(known, s, false);
    PredicatesMean(known, s, false, truth);
    assert Evaluate(Any(all), truth) == SomeEvaluates(all, truth);
  }

  lemma NamedConcat(a: seq<string>, b: seq<string>, relabel: Relabel, x: string)
    ensures Named(a + b, relabel, x) <==> Named(a, relabel, x) || Named(b, relabel, x)
  {
    var all := a + b;
    if i :| 0 <= i < |a| && relabel(a[i]) == x { assert all[i] == a[i]; }
    if i :| 0 <= i < |b| && relabel(b[i]) == x { assert all[|a| + i] == b[i]; }
  }

  lemma {:induction false} PicksOffer(known: Mapping, selects: seq<ConditionSelect>, relabel: Relabel, x: string,
                                      truth: Truth)
    requires Picked(known, selects, truth).Some?
    ensures AllKnownSelects(known, selects)
    ensures Offers(SelectsMembers(known, selects, relabel), x, truth) <==>
            Named(Picked(known, selects, truth).value, relabel, x)
  {
    hide Offers, Named, SelectMembers, Choose, KnownSelect;
    if selects == [] {
      NoOffers(x, truth);
      NoneNamed(relabel, x);
    } else {
      var n := |selects| - 1;
      var init, last := selects[..n], selects[n];
      PicksOffer(known, init, relabel, x, truth);
      SelectOffers(known, last, relabel, x, truth);
      assert forall i :: 0 <= i < n ==> init[i] == selects[i];
      OffersConcat(SelectsMembers(known, init, relabel), SelectMembers(known, last, relabel), x, truth);
      NamedConcat(Picked(known, init, truth).value, Choose(known, last, truth).values, relabel, x);
    }
  }

  lemma NoneNamed(relabel: Relabel, x: string)
    ensures !Named([], relabel, x)
  {}

  /** Staged targets have only mapped labels. */
  lemma {:induction false} StagedKnown(known: Mapping, e: Expr)
    requires Staged(known, e).Some?
    ensures AllKnownSelects(known, Parts(Staged(known, e).value).1)
  {
    hide KnownSelect;
    if e.Add? {
      StagedKnown(known, e.left);
      StagedKnown(known, e.right);
      PlusParts(Staged(known, e.left).value, Staged(known, e.right).value);
    }
  }

  /** For any sum of lists and selects, the members on offer are exactly the configured targets. */
  lemma MembersMatch(known: Mapping, e: Expr, relabel: Relabel, x: string, truth: Truth)
    requires Configured(known, e, truth).Some? && Staged(known, e).Some?
    ensures AllKnownSelects(known, Parts(Staged(known, e).value).1)
    ensures Offers(MembersOf(known, Staged(known, e).value, relabel), x, truth) <==>
            Named(Configured(known, e, truth).value, relabel, x)
  {
    hide Offers, Named, Staged, Configured, Picked, SelectsMembers, Under, Parts;
    var v := Staged(known, e).value;
    var unconditional, selects := Parts(v).0, Parts(v).1;
    StagedKnown(known, e);
    StagingAgrees(known, e, truth);
    var picked := Picked(known, selects, truth).value;
    PicksOffer(known, selects, relabel, x, truth);
    AlwaysOffered(unconditional, relabel, x, truth);
    OffersConcat(Under(unconditional, relabel, All([])), SelectsMembers(known, selects, relabel), x, truth);
    NamedConcat(unconditional, picked, relabel, x);
    SameNames(unconditional + picked, Configured(known, e, truth).value, relabel, x);
  }

  lemma AlwaysOffered(names: seq<string>, relabel: Relabel, x: string, truth: Truth)
    ensures Offers(Under(names, relabel, All([])), x, truth) <==> Named(names, relabel, x)
  {
    hide Offers, Named, Under;
    assert Evaluate(All([]), truth);
    UnderOffers(names, relabel, All([]), x, truth);
  }

  lemma SameNames(a: seq<string>, b: seq<string>, relabel: Relabel, x: string)
    requires multiset(a) == multiset(b)
    ensures Named(a, relabel, x) <==> Named(b, relabel, x)
  {
    if i :| 0 <= i < |a| && relabel(a[i]) == x {
      assert a[i] in multiset(a) && a[i] in b;
    }
    if i :| 0 <= i < |b| && relabel(b[i]) == x {
      assert b[i] in multiset(b) && b[i] in a;
    }
  }

  // ----- Whole tables -----

  datatype Declaration = OneProfile(compiler: string, available: Condition) | ProfileSet(targets: Expr)

  type Declarations = map<string, Declaration>

  ghost predicate AllStaged(known: Mapping, decls: Declarations) {
    forall n :: n in decls && decls[n].ProfileSet? ==> Staged(known, decls[n].targets).Some?
  }

  ghost predicate AllConfigured(known: Mapping, decls: Declarations, truth: Truth) {
    forall n :: n in decls && decls[n].ProfileSet? ==> Configured(known, decls[n].targets, truth).Some?
  }

  function StagedEntry(known: Mapping, d: Declaration, relabel: Relabel): Entry
    requires d.ProfileSet? ==> Staged(known, d.targets).Some?
  {
    match d
    case OneProfile(compiler, available) => Profile(compiler, available)
    case ProfileSet(e) => StagedKnown(known, e); Members(MembersOf(known, Staged(known, e).value, relabel))
  }

  /** Under a configuration the targets of a set are a plain list. */
  function ConfiguredEntry(known: Mapping, d: Declaration, relabel: Relabel, truth: Truth): Entry
    requires d.ProfileSet? ==> Configured(known, d.targets, truth).Some?
  {
    match d
    case OneProfile(compiler, available) => Profile(compiler, available)
    case ProfileSet(e) => Members(MembersOf(known, List(Configured(known, e, truth).value), relabel))
  }

  ghost function StagedTable(known: Mapping, decls: Declarations, relabel: Relabel): Table
    requires AllStaged(known, decls)
  {
    map n | n in decls :: StagedEntry(known, decls[n], relabel)
  }

  ghost function ConfiguredTable(known: Mapping, decls: Declarations, relabel: Relabel, truth: Truth): Table
    requires AllConfigured(known, decls, truth)
  {
    map n | n in decls :: ConfiguredEntry(known, decls[n], relabel, truth)
  }

  lemma PlainMembers(known: Mapping, values: seq<string>, relabel: Relabel)
    ensures MembersOf(known, List(values), relabel) == Under(values, relabel, All([]))
  {}

  /** A set offers a member in one table exactly when the other lists it. */
  lemma EntriesMatch(known: Mapping, d: Declaration, relabel: Relabel, truth: Truth, x: string)
    requires d.ProfileSet? && Staged(known, d.targets).Some? && Configured(known, d.targets, truth).Some?
    ensures var staged := StagedEntry(known, d, relabel).members;
            var plain := ConfiguredEntry(known, d, relabel, truth).members;
            Offers(staged, x, truth) <==> exists j :: 0 <= j < |plain| && plain[j].name == x
  {
    hide Offers, Staged, Configured, SelectsMembers;
    MembersMatch(known, d.targets, relabel, x, truth);
    var values := Configured(known, d.targets, truth).value;
    var plain := ConfiguredEntry(known, d, relabel, truth).members;
    PlainMembers(known, values, relabel);
    if Named(values, relabel, x) {
      var i :| 0 <= i < |values| && relabel(values[i]) == x;
      assert plain[i].name == x;
    }
    if j :| 0 <= j < |plain| && plain[j].name == x {
      assert relabel(values[j]) == x;
    }
  }

  lemma {:induction false} StagedThenConfigured(known: Mapping, decls: Declarations, relabel: Relabel, truth: Truth,
                                                name: string, path: seq<nat>, p: string)
    requires AllStaged(known, decls) && AllConfigured(known, decls, truth)
    requires Routes(StagedTable(known, decls, relabel), name, path, p)
    requires Selected(StagedTable(known, decls, relabel), name, path, truth)
    ensures Listed(ConfiguredTable(known, decls, relabel, truth), name, p)
    decreases |path|
  {
    hide Listed, Evaluate, StagedEntry, ConfiguredEntry, AllStaged, AllConfigured;
    var staged, plain := StagedTable(known, decls, relabel), ConfiguredTable(known, decls, relabel, truth);
    EntryKinds(known, decls, relabel, truth, name);
    if path == [] {
      ProfileRoutes(plain, name, p, truth);
    } else {
      var x := staged[name].members[path[0]].name;
      assert Offers(staged[name].members, x, truth);
      EntriesMatch(known, decls[name], relabel, truth, x);
      StagedThenConfigured(known, decls, relabel, truth, x, path[1..], p);
      RouteUnfold(plain, name, p, truth);
    }
  }

  lemma {:induction false} ConfiguredThenStaged(known: Mapping, decls: Declarations, relabel: Relabel, truth: Truth,
                                                name: string, path: seq<nat>, p: string)
    requires AllStaged(known, decls) && AllConfigured(known, decls, truth)
    requires Routes(ConfiguredTable(known, decls, relabel, truth), name, path, p)
    ensures Available(StagedTable(known, decls, relabel), name, p, truth)
    decreases |path|
  {
    hide Available, Evaluate, StagedEntry, ConfiguredEntry, AllStaged, AllConfigured;
    var staged, plain := StagedTable(known, decls, relabel), ConfiguredTable(known, decls, relabel, truth);
    EntryKinds(known, decls, relabel, truth, name);
    if path == [] {
      ProfileRoutes(staged, name, p, truth);
    } else {
      var x := plain[name].members[path[0]].name;
      EntriesMatch(known, decls[name], relabel, truth, x);
      ConfiguredThenStaged(known, decls, relabel, truth, x, path[1..], p);
      RouteUnfold(staged, name, p, truth);
    }
  }

  lemma EntryKinds(known: Mapping, decls: Declarations, relabel: Relabel, truth: Truth, name: string)
    requires AllStaged(known, decls) && AllConfigured(known, decls, truth) && name in decls
    ensures var d, staged := decls[name], StagedTable(known, decls, relabel)[name];
            var plain := ConfiguredTable(known, decls, relabel, truth)[name];
            && staged.Members? == plain.Members? == d.ProfileSet?
            && (d.ProfileSet? ==> Staged(known, d.targets).Some? && Configured(known, d.targets, truth).Some?)
            && (d.ProfileSet? ==> staged == StagedEntry(known, d, relabel))
            && (d.ProfileSet? ==> plain == ConfiguredEntry(known, d, relabel, truth))
  {
    hide MembersOf;
  }

  /** A profile is available through staged declarations exactly when configured evaluation of the same
      declarations lists it. */
  lemma AvailableIffListed(known: Mapping, decls: Declarations, relabel: Relabel, truth: Truth, name: string, p: string)
    requires AllStaged(known, decls) && AllConfigured(known, decls, truth)
    ensures Available(StagedTable(known, decls, relabel), name, p, truth) <==>
            Listed(ConfiguredTable(known, decls, relabel, truth), name, p)
  {
    hide AllStaged, AllConfigured, StagedTable, ConfiguredTable, Routes, Selected;
    var staged, plain := StagedTable(known, decls, relabel), ConfiguredTable(known, decls, relabel, truth);
    if path :| Routes(staged, name, path, p) && Selected(staged, name, path, truth) {
      StagedThenConfigured(known, decls, relabel, truth, name, path, p);
    }
    if path :| Routes(plain, name, path, p) {
      ConfiguredThenStaged(known, decls, relabel, truth, name, path, p);
    }
  }

  /** The two expansions agree: a staged predicate holds exactly for the profiles of the configured one. */
  lemma ExpansionsAgree(known: Mapping, decls: Declarations, relabel: Relabel, truth: Truth, name: string,
                        staged: map<string, Condition>, plain: map<string, Condition>)
    requires AllStaged(known, decls) && AllConfigured(known, decls, truth)
    requires AlwaysComplete(StagedTable(known, decls, relabel), name, staged)
    requires AlwaysComplete(ConfiguredTable(known, decls, relabel, truth), name, plain)
    ensures forall p :: Means(staged, p, truth) <==> p in plain
  {
    hide AllStaged, AllConfigured, StagedTable, ConfiguredTable, Means, Listed, Available;
    var s, c := StagedTable(known, decls, relabel), ConfiguredTable(known, decls, relabel, truth);
    assert Complete(s, name, staged, truth) && Complete(c, name, plain, truth);
    forall p ensures Means(staged, p, truth) <==> p in plain {
      AvailableIffListed(known, decls, relabel, truth, name, p);
    }
  }

  /** Where the staged expansion succeeds, so does the configured one: its set members are fewer. */
  lemma ConfiguredExpands(known: Mapping, decls: Declarations, relabel: Relabel, truth: Truth, name: string)
    requires AllStaged(known, decls) && AllConfigured(known, decls, truth)
    requires var s := StagedTable(known, decls, relabel); !CycleReachable(MemberGraph(s), name) && AllKnown(s, name)
    ensures var c := ConfiguredTable(known, decls, relabel, truth);
            !CycleReachable(MemberGraph(c), name) && AllKnown(c, name)
  {
    hide AllStaged, AllConfigured, StagedEntry, ConfiguredEntry, Reach, CycleReachable;
    var s, c := StagedTable(known, decls, relabel), ConfiguredTable(known, decls, relabel, truth);
    var g, h := MemberGraph(c), MemberGraph(s);
    forall a, b | Edge(g, a, b) ensures Edge(h, a, b) {
      EntryKinds(known, decls, relabel, truth, a);
      var names := MemberNames(c[a].members);
      var j :| 0 <= j < |names| && names[j] == b;
      assert c[a].members[j].name == b;
      EntriesMatch(known, decls[a], relabel, truth, b);
      var i :| 0 <= i < |s[a].members| && s[a].members[i].name == b;
      assert MemberNames(s[a].members)[i] == b;
    }
    if CycleReachable(g, name) {
      CycleGrows(g, h, name);
    }
    forall x | Reach(g, name, x) ensures x in c {
      ReachGrows(g, h, name, x);
    }
  }
}
