/** Profile sets expanded into availability predicates, one for each profile they can reach. */
module Profiles {
  import opened Digraph
  import opened Sequences
  import opened Conditions

  datatype Member = Member(name: string, selected: Condition)

  /** A profile with its own availability, or an ordered set of conditional members. */
  datatype Entry = Profile(compiler: string, available: Condition) | Members(members: seq<Member>)

  type Table = map<string, Entry>

  datatype Expansion = Cycle | Unknown | Expanded(predicates: map<string, Condition>)

  function MemberNames(members: seq<Member>): seq<string> {
    seq(|members|, i requires 0 <= i < |members| => members[i].name)
  }

  /** Profiles and unknown names are leaves of the membership graph. */
  function MemberGraph(table: Table): Graph {
    map n | n in table && table[n].Members? :: MemberNames(table[n].members)
  }

  ghost predicate AllKnown(table: Table, name: string) {
    forall x :: Reach(MemberGraph(table), name, x) ==> x in table
  }

  lemma AllKnownUnfold(table: Table, name: string)
    ensures AllKnown(table, name) <==>
            name in table &&
            (table[name].Members? ==>
               forall i :: 0 <= i < |table[name].members| ==> AllKnown(table, table[name].members[i].name))
  {
    var g := MemberGraph(table);
    ReachSelf(g, name);
    if AllKnown(table, name) && table[name].Members? {
      forall i, x | 0 <= i < |table[name].members| && Reach(g, table[name].members[i].name, x) ensures x in table {
        assert Edge(g, name, MemberNames(table[name].members)[i]);
        ReachStep(g, name, table[name].members[i].name, x);
      }
    } else if name in table && !AllKnown(table, name) {
      var x :| Reach(g, name, x) && x !in table;
      ReachCases(g, name, x);
      var c :| Edge(g, name, c) && Reach(g, c, x);
      assert c in MemberNames(table[name].members);
    }
  }

  /** Nothing below `name` is unknown, or met again inside its own ancestry. */
  ghost predicate Expandable(table: Table, name: string, active: set<string>) {
    NoRepeat(MemberGraph(table), name, active) && AllKnown(table, name)
  }

  ghost predicate FirstExpandable(table: Table, members: seq<Member>, k: nat, active: set<string>)
    requires k <= |members|
  {
    forall i :: 0 <= i < k ==> Expandable(table, members[i].name, active)
  }

  lemma NextExpandable(table: Table, members: seq<Member>, k: nat, active: set<string>)
    requires k < |members|
    ensures FirstExpandable(table, members, k, active) && Expandable(table, members[k].name, active) ==>
              FirstExpandable(table, members, k + 1, active)
    ensures FirstExpandable(table, members, |members|, active) ==> Expandable(table, members[k].name, active)
  {
    hide Expandable;
  }

  lemma ExpandableUnfold(table: Table, name: string, active: set<string>)
    ensures Expandable(table, name, active) <==>
            name in table &&
            (table[name].Members? ==>
               && name !in active
               && FirstExpandable(table, table[name].members, |table[name].members|, active + {name}))
  {
    hide AllKnown;
    AllKnownUnfold(table, name);
    if name in table && table[name].Members? {
      var members := table[name].members;
      var names := MemberNames(members);
      assert forall i :: 0 <= i < |members| ==> names[i] == members[i].name && names[i] in names;
      forall c | c in names ensures exists i :: 0 <= i < |members| && members[i].name == c {
        var i :| 0 <= i < |names| && names[i] == c;
        assert members[i].name == c;
      }
    }
  }

  /** The reported error is a genuine one. */
  ghost predicate Blamed(table: Table, name: string, active: set<string>, r: Expansion) {
    && (r.Cycle? ==> !NoRepeat(MemberGraph(table), name, active))
    && (r.Unknown? ==> !AllKnown(table, name))
  }

  lemma BlameOwn(table: Table, name: string, active: set<string>)
    ensures name in MemberGraph(table) && name in active ==> Blamed(table, name, active, Cycle)
    ensures name !in table ==> Blamed(table, name, active, Unknown)
  {
    hide AllKnown;
    AllKnownUnfold(table, name);
  }

  lemma BlameMember(table: Table, name: string, k: nat, active: set<string>, r: Expansion)
    requires name in table && table[name].Members? && k < |table[name].members|
    requires Blamed(table, table[name].members[k].name, active + {name}, r)
    ensures Blamed(table, name, active, r)
  {
    hide AllKnown;
    AllKnownUnfold(table, name);
    var names := MemberNames(table[name].members);
    assert names[k] in names;
  }

  // ----- Member paths -----

  /** `path` selects members, by position, from `name` down to the profile `p`. */
  ghost predicate Routes(table: Table, name: string, path: seq<nat>, p: string)
    decreases |path|
  {
    name in table &&
    if path == [] then name == p && table[name].Profile?
    else table[name].Members? && path[0] < |table[name].members| &&
         Routes(table, table[name].members[path[0]].name, path[1..], p)
  }

  /** Every selection condition along the path is true. */
  ghost predicate Selected(table: Table, name: string, path: seq<nat>, truth: Truth)
    decreases |path|
  {
    path != [] ==>
      name in table && table[name].Members? && path[0] < |table[name].members| &&
      Evaluate(table[name].members[path[0]].selected, truth) &&
      Selected(table, table[name].members[path[0]].name, path[1..], truth)
  }

  ghost predicate Listed(table: Table, name: string, p: string) {
    exists path :: Routes(table, name, path, p)
  }

  ghost predicate Available(table: Table, name: string, p: string, truth: Truth) {
    exists path :: Routes(table, name, path, p) && Selected(table, name, path, truth)
  }

  lemma RouteUnfold(table: Table, name: string, p: string, truth: Truth)
    requires name in table && table[name].Members?
    ensures Listed(table, name, p) <==>
            exists i :: 0 <= i < |table[name].members| && Listed(table, table[name].members[i].name, p)
    ensures Available(table, name, p, truth) <==>
            exists i :: 0 <= i < |table[name].members| && Evaluate(table[name].members[i].selected, truth) &&
                        Available(table, table[name].members[i].name, p, truth)
  {
    var members := table[name].members;
    if path :| Routes(table, name, path, p) {
      assert Routes(table, members[path[0]].name, path[1..], p);
    }
    if path :| Routes(table, name, path, p) && Selected(table, name, path, truth) {
      assert Routes(table, members[path[0]].name, path[1..], p) &&
             Selected(table, members[path[0]].name, path[1..], truth);
    }
    if i :| 0 <= i < |members| && Listed(table, members[i].name, p) {
      var path :| Routes(table, members[i].name, path, p);
      assert ([i] + path)[1..] == path && Routes(table, name, [i] + path, p);
    }
    if i :| 0 <= i < |members| && Evaluate(members[i].selected, truth) && Available(table, members[i].name, p, truth) {
      var path :| Routes(table, members[i].name, path, p) && Selected(table, members[i].name, path, truth);
      assert ([i] + path)[1..] == path;
      assert Routes(table, name, [i] + path, p) && Selected(table, name, [i] + path, truth);
    }
  }

  lemma ProfileRoutes(table: Table, name: string, p: string, truth: Truth)
    requires name in table && table[name].Profile?
    ensures Listed(table, name, p) <==> p == name
    ensures Available(table, name, p, truth) <==> p == name
  {
    if p == name {
      assert Routes(table, name, [], p) && Selected(table, name, [], truth);
    }
  }

  // ----- Expansion -----

  /** Adds a member's profiles under its selection; a profile met twice becomes an alternative. */
  function Merge(result: map<string, Condition>, selected: Condition, inner: map<string, Condition>):
    map<string, Condition>
  {
    result + map p | p in inner :: Alternative(result, All([selected, inner[p]]), p)
  }

  function Alternative(result: map<string, Condition>, added: Condition, p: string): Condition {
    if p in result then Any([result[p], added]) else added
  }

  lemma MergeMeans(result: map<string, Condition>, selected: Condition, inner: map<string, Condition>, p: string,
                   truth: Truth)
    ensures p in Merge(result, selected, inner) <==> p in result || p in inner
    ensures Means(Merge(result, selected, inner), p, truth) <==>
            Means(result, p, truth) || (Evaluate(selected, truth) && Means(inner, p, truth))
  {
    hide Evaluate;
    if p in inner {
      var both := All([selected, inner[p]]);
      BothHold(selected, inner[p], truth);
      if p in result {
        EitherHolds(result[p], both, truth);
      }
    }
  }

  lemma BothHold(a: Condition, b: Condition, truth: Truth)
    ensures Evaluate(All([a, b]), truth) <==> Evaluate(a, truth) && Evaluate(b, truth)
  {
    var both := All([a, b]);
    assert both.operands[0] == a && both.operands[1] == b;
  }

  lemma EitherHolds(a: Condition, b: Condition, truth: Truth)
    ensures Evaluate(Any([a, b]), truth) <==> Evaluate(a, truth) || Evaluate(b, truth)
  {
    var either := Any([a, b]);
    assert either.operands[0] == a && either.operands[1] == b;
  }

  ghost predicate Means(predicates: map<string, Condition>, p: string, truth: Truth) {
    p in predicates && Evaluate(predicates[p], truth)
  }

  method MergeMember(result0: map<string, Condition>, selected: Condition, inner: map<string, Condition>)
    returns (result: map<string, Condition>)
    ensures result == Merge(result0, selected, inner)
  {
    hide Alternative;
    result := result0;
    var rest := inner.Keys;
    while rest != {}
      invariant rest <= inner.Keys && result.Keys == result0.Keys + (inner.Keys - rest)
      invariant forall p :: p in inner && p !in rest ==> result[p] == Alternative(result0, All([selected, inner[p]]), p)
      invariant forall p :: p in result0 && (p !in inner || p in rest) ==> result[p] == result0[p]
      decreases rest
    {
      var profile :| profile in rest;
      var added := All([selected, inner[profile]]);
      assert Alternative(result, added, profile) == Alternative(result0, added, profile) by {
        SameAlternative(result, result0, added, profile);
      }
      result := result[profile := Alternative(result, added, profile)];
      rest := rest - {profile};
    }
  }

  lemma SameAlternative(a: map<string, Condition>, b: map<string, Condition>, added: Condition, p: string)
    requires p in a <==> p in b
    requires p in a ==> a[p] == b[p]
    ensures Alternative(a, added, p) == Alternative(b, added, p)
  {}

  /** The first `k` members are accounted for. */
  ghost predicate Covers(table: Table, members: seq<Member>, k: nat, result: map<string, Condition>, truth: Truth)
    requires k <= |members|
  {
    forall p ::
      && (p in result <==> exists i :: 0 <= i < k && Listed(table, members[i].name, p))
      && (Means(result, p, truth) <==>
          exists i :: 0 <= i < k && Evaluate(members[i].selected, truth) && Available(table, members[i].name, p, truth))
  }

  /** A complete expansion: exactly the reachable profiles, each with its availability. */
  ghost predicate Complete(table: Table, name: string, predicates: map<string, Condition>, truth: Truth) {
    forall p ::
      && (p in predicates <==> Listed(table, name, p))
      && (Means(predicates, p, truth) <==> Available(table, name, p, truth))
  }

  ghost predicate AlwaysCovers(table: Table, members: seq<Member>, k: nat, result: map<string, Condition>)
    requires k <= |members|
  {
    forall truth: Truth :: Covers(table, members, k, result, truth)
  }

  /** One predicate map serves every configuration. */
  ghost predicate AlwaysComplete(table: Table, name: string, predicates: map<string, Condition>) {
    forall truth: Truth :: Complete(table, name, predicates, truth)
  }

  lemma CoverMembers(table: Table, members: seq<Member>, k: nat, result: map<string, Condition>,
                     inner: map<string, Condition>)
    requires k < |members| && AlwaysCovers(table, members, k, result) && AlwaysComplete(table, members[k].name, inner)
    ensures AlwaysCovers(table, members, k + 1, Merge(result, members[k].selected, inner))
  {
    hide Covers, Complete, Merge;
    var n, merged := k + 1, Merge(result, members[k].selected, inner);
    forall truth: Truth ensures Covers(table, members, n, merged, truth) {
      CoverMember(table, members, k, result, inner, truth);
    }
  }

  lemma CoverMember(table: Table, members: seq<Member>, k: nat, result: map<string, Condition>,
                    inner: map<string, Condition>, truth: Truth)
    requires k < |members| && Covers(table, members, k, result, truth)
    requires Complete(table, members[k].name, inner, truth)
    ensures Covers(table, members, k + 1, Merge(result, members[k].selected, inner), truth)
  {
    hide Listed, Available, Evaluate;
    forall p
      ensures p in Merge(result, members[k].selected, inner) <==>
              exists i :: 0 <= i < k + 1 && Listed(table, members[i].name, p)
      ensures Means(Merge(result, members[k].selected, inner), p, truth) <==>
              exists i :: 0 <= i < k + 1 && Evaluate(members[i].selected, truth) &&
                  Available(table, members[i].name, p, truth)
    {
      MergeMeans(result, members[k].selected, inner, p, truth);
      hide Means, Merge;
    }
  }

  /**
   Expands a label. It returns exactly when no cycle and no unknown label is reachable, and then
   a profile's predicate holds exactly when some member path to it has every condition true.
   */
  method Expand(table: Table, name: string, active: seq<string>) returns (r: Expansion)
    requires forall a :: a in active ==> a in MemberGraph(table)
    decreases |MemberGraph(table).Keys - ToSet(active)|
    ensures r.Expanded? <==> Expandable(table, name, ToSet(active))
    ensures !r.Expanded? ==> Blamed(table, name, ToSet(active), r)
    ensures r.Expanded? ==> AlwaysComplete(table, name, r.predicates)
  {
    hide Expandable, FirstExpandable, AlwaysCovers, AlwaysComplete, Blamed, AllKnown, NoRepeat, MemberNames;
    ExpandableUnfold(table, name, ToSet(active));
    BlameOwn(table, name, ToSet(active));
    if name in active {
      return Cycle;
    }
    if name !in table {
      return Unknown;
    }
    var entry := table[name];
    if entry.Profile? {
      r := Expanded(map[name := All([])]);
      ProfileExpands(table, name);
      return;
    }
    var members := entry.members;
    Shrinks(MemberGraph(table).Keys, ToSet(active), name);
    ghost var inside := ToSet(active + [name]);
    assert inside == ToSet(active) + {name};
    var result: map<string, Condition> := map[];
    NoMembers(table, members, inside);
    for k := 0 to |members|
      invariant AlwaysCovers(table, members, k, result)
      invariant FirstExpandable(table, members, k, inside)
    {
      var inner := Expand(table, members[k].name, active + [name]);
      NextExpandable(table, members, k, inside);
      if !inner.Expanded? {
        BlameMember(table, name, k, ToSet(active), inner);
        return inner;
      }
      CoverMembers(table, members, k, result, inner.predicates);
      result := MergeMember(result, members[k].selected, inner.predicates);
    }
    SetExpands(table, name, result);
    r := Expanded(result);
  }

  lemma NoMembers(table: Table, members: seq<Member>, active: set<string>)
    ensures AlwaysCovers(table, members, 0, map[]) && FirstExpandable(table, members, 0, active)
  {}

  lemma ProfileExpands(table: Table, name: string)
    requires name in table && table[name].Profile?
    ensures AlwaysComplete(table, name, map[name := All([])])
  {
    hide Complete;
    var only: map<string, Condition> := map[name := All([])];
    forall truth: Truth ensures Complete(table, name, only, truth) {
      ProfileCompletes(table, name, truth);
    }
  }

  lemma ProfileCompletes(table: Table, name: string, truth: Truth)
    requires name in table && table[name].Profile?
    ensures Complete(table, name, map[name := All([])], truth)
  {
    var only: map<string, Condition> := map[name := All([])];
    forall p
      ensures p in only <==> Listed(table, name, p)
      ensures Means(only, p, truth) <==> Available(table, name, p, truth)
    {
      ProfileRoutes(table, name, p, truth);
    }
  }

  lemma SetExpands(table: Table, name: string, result: map<string, Condition>)
    requires name in table && table[name].Members?
    requires AlwaysCovers(table, table[name].members, |table[name].members|, result)
    ensures AlwaysComplete(table, name, result)
  {
    hide Covers, Complete;
    forall truth: Truth ensures Complete(table, name, result, truth) {
      SetCompletes(table, name, result, truth);
    }
  }

  lemma SetCompletes(table: Table, name: string, result: map<string, Condition>, truth: Truth)
    requires name in table && table[name].Members?
    requires Covers(table, table[name].members, |table[name].members|, result, truth)
    ensures Complete(table, name, result, truth)
  {
    hide Listed, Available, Evaluate, Means;
    forall p
      ensures p in result <==> Listed(table, name, p)
      ensures Means(result, p, truth) <==> Available(table, name, p, truth)
    {
      RouteUnfold(table, name, p, truth);
    }
  }

  /** From a clean start: success exactly when nothing cyclic or unknown can be reached. */
  method ExpandLabel(table: Table, name: string) returns (r: Expansion)
    ensures r.Expanded? <==> !CycleReachable(MemberGraph(table), name) && AllKnown(table, name)
    ensures r.Cycle? ==> CycleReachable(MemberGraph(table), name)
    ensures r.Unknown? ==> !AllKnown(table, name)
    ensures r.Expanded? ==> AlwaysComplete(table, name, r.predicates)
  {
    hide CycleReachable, AllKnown, NoRepeat, AlwaysComplete;
    NoRepeatIffAcyclic(MemberGraph(table), name);
    assert ToSet<string>([]) == {};
    r := Expand(table, name, []);
  }
}
