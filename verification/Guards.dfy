/**
 Compatibility guards: the `if()` text emitted for `target_compatible_with`, and the
 structured predicate built from the same requirements for profile sets.
 */
module Guards {
  import opened Optional
  import opened Conditions

  /** A `select()`: condition labels with their values in order, and the default branch. */
  datatype Branch = Branch(key: string, values: seq<string>)
  datatype ConditionSelect = ConditionSelect(branches: seq<Branch>, fallback: Option<seq<string>>)

  datatype Requirements = Labels(labels: seq<string>) | Select(only: ConditionSelect)
                        | Mixed(unconditional: seq<string>, selects: seq<ConditionSelect>)

  type Mapping = map<string, Condition>

  datatype Guard = Unsupported | NoGuard | Guarded(text: Text)

  // ----- What the requirements mean -----

  ghost predicate Holds(known: Mapping, key: string, truth: Truth) {
    key in known && Evaluate(known[key], truth)
  }

  ghost predicate NoneHolds(known: Mapping, s: ConditionSelect, truth: Truth) {
    forall i :: 0 <= i < |s.branches| ==> !Holds(known, s.branches[i].key, truth)
  }

  /** Some matching branch is empty, or nothing matches and the default is empty. */
  ghost predicate Allows(known: Mapping, s: ConditionSelect, truth: Truth) {
    || (exists i :: 0 <= i < |s.branches| && s.branches[i].values == [] && Holds(known, s.branches[i].key, truth))
    || (s.fallback == Some([]) && NoneHolds(known, s, truth))
  }

  ghost predicate AllHold(known: Mapping, labels: seq<string>, truth: Truth) {
    forall i :: 0 <= i < |labels| ==> Holds(known, labels[i], truth)
  }

  ghost predicate Required(known: Mapping, r: Requirements, truth: Truth) {
    match r
    case Labels(labels) => AllHold(known, labels, truth)
    case Select(s) => Allows(known, s, truth)
    case Mixed(labels, selects) =>
      AllHold(known, labels, truth) && forall i :: 0 <= i < |selects| ==> Allows(known, selects[i], truth)
  }

  predicate KnownSelect(known: Mapping, s: ConditionSelect) {
    forall i :: 0 <= i < |s.branches| ==> s.branches[i].key in known
  }

  predicate KnownLabels(known: Mapping, labels: seq<string>) {
    forall i :: 0 <= i < |labels| ==> labels[i] in known
  }

  predicate Supported(known: Mapping, r: Requirements) {
    match r
    case Labels(labels) => KnownLabels(known, labels)
    case Select(s) => KnownSelect(known, s)
    case Mixed(labels, selects) =>
      KnownLabels(known, labels) && forall i :: 0 <= i < |selects| ==> KnownSelect(known, selects[i])
  }

  /** The mapped conditions render to text that can be read. */
  ghost predicate ProperConditions(known: Mapping) {
    forall l :: l in known ==> Proper(known[l]) && SingleNots(known[l])
  }

  // ----- Pieces of guard text -----

  predicate Contains(s: string, part: string) {
    part <= s || (s != [] && Contains(s[1..], part))
  }

  lemma {:induction false} ContainsIff(s: string, part: string)
    ensures Contains(s, part) <==> exists i :: 0 <= i <= |s| && part <= s[i..]
  {
    assert s[0..] == s;
    if s == [] {
    } else {
      var tail := s[1..];
      ContainsIff(tail, part);
      forall i | 0 <= i <= |tail| ensures var k := i + 1; tail[i..] == s[k..] {}
      if i :| 0 <= i <= |s| && part <= s[i..] {
        if i > 0 { assert tail[i - 1..] == s[i..]; }
      }
      if i :| 0 <= i <= |tail| && part <= tail[i..] {
        var k := i + 1;
        assert s[k..] == tail[i..];
      }
    }
  }

  /** The textual test: an OR operator, or a quoted operand that happens to hold one. */
  predicate MentionsOr(t: Text) {
    exists i :: 0 <= i < |t| && (t[i] == OR || (t[i].Quoted? && Contains(t[i].text, " OR ")))
  }

  function Wrapped(t: Text): Text {
    if MentionsOr(t) then [Open] + t + [Close] else t
  }

  /** A text usable anywhere a condition is, and below AND as well when it has no OR of its own. */
  ghost predicate Piece(t: Text, v: bool, truth: Truth) {
    OrText(t, v, truth) && (OR !in t ==> AndText(t, v, truth))
  }

  lemma PieceMeans(t: Text, v: bool, truth: Truth)
    requires Piece(t, v, truth)
    ensures EvaluateText(t, truth) == Some(v)
    ensures AndText(Wrapped(t), v, truth)
  {
    OrTextMeans(t, v, truth);
    if MentionsOr(t) {
      Parenthesised(t, v, truth);
      TestIsNot([Open] + t + [Close], v, truth);
      NotIsAnd([Open] + t + [Close], v, truth);
    } else {
      assert OR !in t;
    }
  }

  lemma {:induction false} JoinHasSeparator(separator: Token, parts: seq<Text>)
    ensures |parts| > 1 ==> separator in Join(separator, parts)
  {}

  lemma RenderPiece(c: Condition, truth: Truth)
    requires Proper(c) && SingleNots(c) && ConstantsKept(truth)
    ensures Piece(Render(c), Evaluate(c, truth), truth)
  {
    hide TestText, NotText, AndText, OrText;
    RenderIsOr(c, truth);
    var t, v := Render(c), Evaluate(c, truth);
    if c.Any? {
      AlternativeAlone(c, truth);
    } else {
      RenderFits(c, truth);
      hide Render, Evaluate, Proper;
      if c.Is? { TestIsNot(t, v, truth); }
      if c.Is? || c.Not? { NotIsAnd(t, v, truth); }
    }
  }

  /** An alternative without an OR has at most one operand, which is grouped. */
  lemma AlternativeAlone(c: Condition, truth: Truth)
    requires c.Any? && Proper(c) && SingleNots(c) && ConstantsKept(truth)
    ensures OR !in Render(c) ==> AndText(Render(c), Evaluate(c, truth), truth)
  {
    hide TestText, NotText, AndText, OrText;
    var t := Render(c);
    if c.operands == [] {
      WordText("FALSE", truth);
      TestIsNot(t, false, truth);
      NotIsAnd(t, false, truth);
    } else if OR !in t {
      var parts := Groups(c, c.operands);
      JoinHasSeparator(OR, parts);
      assert |parts| == 1 && t == Group(c.operands[0]);
      GroupFits(c.operands[0], truth);
      NotIsAnd(t, Evaluate(c.operands[0], truth), truth);
    }
  }

  lemma JoinPiece(parts: seq<Text>, vs: seq<bool>, truth: Truth)
    requires |parts| == |vs| > 0 && forall i :: 0 <= i < |parts| ==> Piece(parts[i], vs[i], truth)
    ensures Piece(Join(OR, parts), AnyTrue(vs), truth)
  {
    hide TestText, NotText, AndText, OrText;
    JoinOr(parts, vs, truth);
    if |parts| > 1 {
      JoinHasSeparator(OR, parts);
    } else {
      assert AnyTrue(vs) == vs[0];
    }
  }

  lemma FalsePiece(truth: Truth)
    ensures Piece([Word("FALSE")], false, truth)
  {
    WordText("FALSE", truth);
    TestIsNot([Word("FALSE")], false, truth);
    NotIsAnd([Word("FALSE")], false, truth);
    AndIsOr([Word("FALSE")], false, truth);
  }

  /** NOT over an alternative of parenthesised conditions. */
  lemma NoneSelectedPiece(parts: seq<Text>, vs: seq<bool>, truth: Truth)
    requires |parts| == |vs| > 0 && forall i :: 0 <= i < |parts| ==> OrText(parts[i], vs[i], truth)
    ensures Piece([NOT, Open] + Join(OR, parts) + [Close], !AnyTrue(vs), truth)
  {
    hide TestText, NotText, AndText, OrText;
    JoinOr(parts, vs, truth);
    hide Join, AnyTrue;
    var inner := [Open] + Join(OR, parts) + [Close];
    Parenthesised(Join(OR, parts), AnyTrue(vs), truth);
    Negated(inner, AnyTrue(vs), truth);
    NotIsAnd([NOT] + inner, !AnyTrue(vs), truth);
    AndIsOr([NOT] + inner, !AnyTrue(vs), truth);
    assert [NOT] + inner == [NOT, Open] + Join(OR, parts) + [Close];
  }

  // ----- Emitting guards -----

  /** The mapped conditions are well formed and the configuration keeps the constants. */
  ghost predicate Ready(known: Mapping, truth: Truth) {
    ProperConditions(known) && ConstantsKept(truth)
  }

  predicate TextHolds(t: Text, truth: Truth) {
    EvaluateText(t, truth) == Some(true)
  }

  function Verdicts(texts: seq<Text>, truth: Truth): seq<bool> {
    seq(|texts|, i requires 0 <= i < |texts| => TextHolds(texts[i], truth))
  }

  ghost function BranchVerdicts(known: Mapping, s: ConditionSelect, k: nat, truth: Truth): seq<bool>
    requires k <= |s.branches|
  {
    seq(k, i requires 0 <= i < k => Holds(known, s.branches[i].key, truth))
  }

  /** The texts of the empty branches, and of all branches in parentheses, under one configuration. */
  ghost predicate BranchTexts(known: Mapping, s: ConditionSelect, k: nat, conditions: seq<Text>, selected: seq<Text>,
                              truth: Truth)
    requires k <= |s.branches|
  {
    && |selected| == k
    && (forall i :: 0 <= i < |conditions| ==> Piece(conditions[i], TextHolds(conditions[i], truth), truth))
    && (forall i :: 0 <= i < k ==> OrText(selected[i], Holds(known, s.branches[i].key, truth), truth))
    && (AnyTrue(Verdicts(conditions, truth)) <==>
        exists i :: 0 <= i < k && s.branches[i].values == [] && Holds(known, s.branches[i].key, truth))
  }

  /** The same texts serve every configuration. */
  ghost predicate AlwaysBranchTexts(known: Mapping, s: ConditionSelect, k: nat, conditions: seq<Text>,
                                    selected: seq<Text>)
    requires k <= |s.branches|
  {
    forall truth: Truth :: Ready(known, truth) ==> BranchTexts(known, s, k, conditions, selected, truth)
  }

  lemma NextBranch(known: Mapping, s: ConditionSelect, k: nat, conditions: seq<Text>, selected: seq<Text>, truth: Truth)
    requires k < |s.branches| && s.branches[k].key in known && Ready(known, truth)
    requires BranchTexts(known, s, k, conditions, selected, truth)
    ensures var t := Render(known[s.branches[k].key]);
            BranchTexts(known, s, k + 1, if s.branches[k].values == [] then conditions + [t] else conditions,
                        selected + [[Open] + t + [Close]], truth)
  {
    hide TestText, NotText, AndText, OrText, Piece, TextHolds, Holds, AnyTrue, Verdicts, Evaluate, Render;
    var c := known[s.branches[k].key];
    var v, t := Evaluate(c, truth), Render(c);
    RenderPiece(c, truth);
    PieceHolds(t, v, truth);
    PieceIsOr(t, v, truth);
    Parenthesised(t, v, truth);
    TestIsOr([Open] + t + [Close], v, truth);
    HoldsIs(known, s.branches[k].key, truth);
    AnyTrueAppend(Verdicts(conditions, truth), v);
    VerdictsAppend(conditions, t, truth);
  }

  lemma VerdictsAppend(texts: seq<Text>, t: Text, truth: Truth)
    ensures Verdicts(texts + [t], truth) == Verdicts(texts, truth) + [TextHolds(t, truth)]
  {
    hide TextHolds;
    assert |Verdicts(texts + [t], truth)| == |Verdicts(texts, truth) + [TextHolds(t, truth)]|;
  }

  lemma PieceHolds(t: Text, v: bool, truth: Truth)
    requires Piece(t, v, truth)
    ensures TextHolds(t, truth) == v
  {
    hide Piece;
    PieceMeans(t, v, truth);
  }

  lemma PieceIsOr(t: Text, v: bool, truth: Truth)
    requires Piece(t, v, truth)
    ensures OrText(t, v, truth)
  {}

  lemma HoldsIs(known: Mapping, key: string, truth: Truth)
    requires key in known
    ensures Holds(known, key, truth) == Evaluate(known[key], truth)
  {}

  lemma AnyTrueAppend(vs: seq<bool>, v: bool)
    ensures AnyTrue(vs + [v]) <==> AnyTrue(vs) || v
  {
    if i :| 0 <= i < |vs| && vs[i] { assert (vs + [v])[i]; }
    if v { assert (vs + [v])[|vs|]; }
  }

  /** Nothing is selected: the clause for an empty default. */
  function NoneSelected(selected: seq<Text>): Text {
    [NOT, Open] + Join(OR, selected) + [Close]
  }

  /** What the collected branch texts say once the default has been added. */
  lemma GuardMeans(known: Mapping, s: ConditionSelect, conditions: seq<Text>, selected: seq<Text>, truth: Truth)
    requires Ready(known, truth) && BranchTexts(known, s, |s.branches|, conditions, selected, truth)
    requires s.fallback == Some([]) ==> selected != []
    ensures var all := if s.fallback == Some([]) then conditions + [NoneSelected(selected)] else conditions;
            Piece(if all == [] then [Word("FALSE")] else Join(OR, all), Allows(known, s, truth), truth)
  {
    hide TestText, NotText, AndText, OrText, Piece, TextHolds, Holds, AnyTrue;
    var vs := Verdicts(conditions, truth);
    if s.fallback == Some([]) {
      var svs := BranchVerdicts(known, s, |selected|, truth);
      NoneSelectedPiece(selected, svs, truth);
      NoneHoldsIff(known, s, truth);
      AnyTrueAppend(vs, !AnyTrue(svs));
      JoinPiece(conditions + [NoneSelected(selected)], vs + [!AnyTrue(svs)], truth);
    } else if conditions == [] {
      FalsePiece(truth);
      NoneTrue();
    } else {
      JoinPiece(conditions, vs, truth);
    }
  }

  lemma NoneTrue()
    ensures !AnyTrue([])
  {}

  lemma NoneHoldsIff(known: Mapping, s: ConditionSelect, truth: Truth)
    ensures AnyTrue(BranchVerdicts(known, s, |s.branches|, truth)) <==> !NoneHolds(known, s, truth)
  {
    var svs := BranchVerdicts(known, s, |s.branches|, truth);
    if i :| 0 <= i < |s.branches| && Holds(known, s.branches[i].key, truth) {
      assert svs[i];
    }
  }

  /** The text, or its absence, says under every configuration whether the select allows the target. */
  ghost predicate GuardsSelect(known: Mapping, s: ConditionSelect, g: Guard) {
    && (g.NoGuard? ==> forall truth: Truth :: Allows(known, s, truth))
    && (g.Guarded? ==> forall truth: Truth :: Ready(known, truth) ==> Piece(g.text, Allows(known, s, truth), truth))
  }

  /** The alternatives of a select that leave the target compatible. */
  method SelectGuard(known: Mapping, s: ConditionSelect) returns (g: Guard)
    ensures g.Unsupported? <==> !KnownSelect(known, s)
    ensures GuardsSelect(known, s, g)
  {
    hide Piece, Holds, AlwaysBranchTexts;
    var conditions: seq<Text>, selected: seq<Text> := [], [];
    NoBranches(known, s);
    for k := 0 to |s.branches|
      invariant forall i :: 0 <= i < k ==> s.branches[i].key in known
      invariant |selected| == k && AlwaysBranchTexts(known, s, k, conditions, selected)
    {
      var b := s.branches[k];
      if b.key !in known {
        return Unsupported;
      }
      NextBranches(known, s, k, conditions, selected);
      var text := Render(known[b.key]);
      selected := selected + [[Open] + text + [Close]];
      if b.values == [] {
        conditions := conditions + [text];
      }
    }
    if s.fallback == Some([]) && selected == [] {
      return NoGuard;
    }
    GuardsMean(known, s, conditions, selected);
    if s.fallback == Some([]) {
      conditions := conditions + [NoneSelected(selected)];
    }
    return Guarded(if conditions == [] then [Word("FALSE")] else Join(OR, conditions));
  }

  lemma NoBranches(known: Mapping, s: ConditionSelect)
    ensures AlwaysBranchTexts(known, s, 0, [], [])
  {}

  lemma NextBranches(known: Mapping, s: ConditionSelect, k: nat, conditions: seq<Text>, selected: seq<Text>)
    requires k < |s.branches| && s.branches[k].key in known
    requires AlwaysBranchTexts(known, s, k, conditions, selected)
    ensures var t := Render(known[s.branches[k].key]);
            AlwaysBranchTexts(known, s, k + 1, if s.branches[k].values == [] then conditions + [t] else conditions,
                              selected + [[Open] + t + [Close]])
  {
    hide BranchTexts, Ready;
    var t := Render(known[s.branches[k].key]);
    var more := if s.branches[k].values == [] then conditions + [t] else conditions;
    forall truth: Truth | Ready(known, truth)
      ensures BranchTexts(known, s, k + 1, more, selected + [[Open] + t + [Close]], truth)
    {
      NextBranch(known, s, k, conditions, selected, truth);
    }
  }

  lemma GuardsMean(known: Mapping, s: ConditionSelect, conditions: seq<Text>, selected: seq<Text>)
    requires AlwaysBranchTexts(known, s, |s.branches|, conditions, selected)
    requires s.fallback == Some([]) ==> selected != []
    ensures var all := if s.fallback == Some([]) then conditions + [NoneSelected(selected)] else conditions;
            GuardsSelect(known, s, Guarded(if all == [] then [Word("FALSE")] else Join(OR, all)))
  {
    hide BranchTexts, Ready, Piece;
    var all := if s.fallback == Some([]) then conditions + [NoneSelected(selected)] else conditions;
    var text := if all == [] then [Word("FALSE")] else Join(OR, all);
    forall truth: Truth | Ready(known, truth) ensures Piece(text, Allows(known, s, truth), truth) {
      GuardMeans(known, s, conditions, selected, truth);
    }
  }

  /** Collected texts are usable pieces; together they say `wanted`. */
  ghost predicate Collects(texts: seq<Text>, wanted: bool, truth: Truth) {
    && (forall i :: 0 <= i < |texts| ==> Piece(texts[i], TextHolds(texts[i], truth), truth))
    && ((forall i :: 0 <= i < |texts| ==> TextHolds(texts[i], truth)) <==> wanted)
  }

  function AppendUnique(texts: seq<Text>, t: Text): seq<Text> {
    if t in texts then texts else texts + [t]
  }

  /** A repeated text adds nothing: equal texts have equal values. */
  lemma CollectOne(texts: seq<Text>, wanted: bool, t: Text, v: bool, truth: Truth)
    requires Collects(texts, wanted, truth) && Piece(t, v, truth)
    ensures Collects(AppendUnique(texts, t), wanted && v, truth)
  {
    PieceMeans(t, v, truth);
    hide Piece;
    assert TextHolds(t, truth) == v;
    hide TextHolds;
    if t in texts {
      var i :| 0 <= i < |texts| && texts[i] == t;
      assert wanted ==> TextHolds(texts[i], truth);
    } else {
      var more := texts + [t];
      assert AppendUnique(texts, t) == more && more[|texts|] == t;
      assert forall i :: 0 <= i < |texts| ==> more[i] == texts[i];
      assert (forall i :: 0 <= i < |more| ==> TextHolds(more[i], truth)) <==> wanted && v;
    }
  }

  /** Collected under every configuration: all labels hold and all selects allow the target. */
  ghost predicate AlwaysCollects(known: Mapping, labels: seq<string>, selects: seq<ConditionSelect>, texts: seq<Text>) {
    forall truth: Truth :: Ready(known, truth) ==>
      Collects(texts, AllHold(known, labels, truth) && AllAllow(known, selects, truth), truth)
  }

  lemma NothingCollected(known: Mapping)
    ensures AlwaysCollects(known, [], [], [])
  {}

  lemma CollectLabel(known: Mapping, labels: seq<string>, texts: seq<Text>, key: string)
    requires AlwaysCollects(known, labels, [], texts) && key in known
    ensures AlwaysCollects(known, labels + [key], [], AppendUnique(texts, Render(known[key])))
  {
    hide Collects, AppendUnique, AllHold, Evaluate, Piece;
    var t, more := Render(known[key]), AppendUnique(texts, Render(known[key]));
    forall truth: Truth | Ready(known, truth)
      ensures Collects(more, AllHold(known, labels + [key], truth) && AllAllow(known, [], truth), truth)
    {
      RenderPiece(known[key], truth);
      CollectOne(texts, AllHold(known, labels, truth), t, Holds(known, key, truth), truth);
      AllHoldAppend(known, labels, key, truth);
    }
  }

  lemma CollectSelect(known: Mapping, labels: seq<string>, selects: seq<ConditionSelect>, texts: seq<Text>,
                      s: ConditionSelect, g: Guard)
    requires AlwaysCollects(known, labels, selects, texts) && !g.Unsupported? && GuardsSelect(known, s, g)
    ensures AlwaysCollects(known, labels, selects + [s], if g.Guarded? then AppendUnique(texts, g.text) else texts)
  {
    hide Collects, AppendUnique, AllHold, AllAllow, Allows, Piece, Ready;
    var more := if g.Guarded? then AppendUnique(texts, g.text) else texts;
    forall truth: Truth | Ready(known, truth)
      ensures Collects(more, AllHold(known, labels, truth) && AllAllow(known, selects + [s], truth), truth)
    {
      AllAllowAppend(known, selects, s, truth);
      if g.Guarded? {
        CollectOne(texts, AllHold(known, labels, truth) && AllAllow(known, selects, truth), g.text,
                   Allows(known, s, truth), truth);
      }
    }
  }

  /** The guard says under every configuration whether the requirements hold. */
  ghost predicate GuardsRequired(known: Mapping, r: Requirements, g: Guard) {
    forall truth: Truth :: Ready(known, truth) ==>
      && (g.NoGuard? ==> Required(known, r, truth))
      && (g.Guarded? ==> EvaluateText(g.text, truth) == Some(Required(known, r, truth)))
  }

  lemma SelectRequired(known: Mapping, s: ConditionSelect, g: Guard)
    requires GuardsSelect(known, s, g)
    ensures GuardsRequired(known, Select(s), g)
  {
    hide Piece, EvaluateText, Ready, Allows;
    forall truth: Truth | Ready(known, truth) && g.Guarded?
      ensures EvaluateText(g.text, truth) == Some(Allows(known, s, truth))
    {
      PieceMeans(g.text, Allows(known, s, truth), truth);
    }
  }

  lemma CollectedRequired(known: Mapping, r: Requirements, labels: seq<string>, selects: seq<ConditionSelect>,
                          texts: seq<Text>)
    requires AlwaysCollects(known, labels, selects, texts)
    requires (r == Labels(labels) && selects == []) || r == Mixed(labels, selects)
    ensures GuardsRequired(known, r, if texts == [] then NoGuard else Guarded(Join(AND, WrapAll(texts))))
  {
    hide Collects, EvaluateText, Ready, Allows, AllHold, WrapAll, Join;
    forall truth: Truth | Ready(known, truth)
      ensures texts == [] ==> Required(known, r, truth)
      ensures texts != [] ==> EvaluateText(Join(AND, WrapAll(texts)), truth) == Some(Required(known, r, truth))
    {
      JoinCollected(texts, AllHold(known, labels, truth) && AllAllow(known, selects, truth), truth);
    }
  }

  /** One clause per required label and per select; text is repeated only once. */
  method TargetCompatibleCondition(known: Mapping, r: Requirements) returns (g: Guard)
    ensures g.Unsupported? <==> !Supported(known, r)
    ensures GuardsRequired(known, r, g)
  {
    hide GuardsSelect, GuardsRequired, AlwaysCollects, KnownSelect;
    UnsupportedGuard(known, r);
    if r.Select? {
      g := SelectGuard(known, r.only);
      SelectRequired(known, r.only, g);
      return;
    }
    var labels, selects := if r.Labels? then r.labels else r.unconditional, if r.Labels? then [] else r.selects;
    var texts: seq<Text> := [];
    NothingCollected(known);
    for k := 0 to |labels|
      invariant KnownLabels(known, labels[..k])
      invariant AlwaysCollects(known, labels[..k], [], texts)
    {
      assert labels[..k + 1] == labels[..k] + [labels[k]];
      if labels[k] !in known {
        return Unsupported;
      }
      CollectLabel(known, labels[..k], texts, labels[k]);
      texts := AppendUnique(texts, Render(known[labels[k]]));
    }
    assert labels[..|labels|] == labels && selects[..0] == [];
    for k := 0 to |selects|
      invariant forall i :: 0 <= i < k ==> KnownSelect(known, selects[i])
      invariant AlwaysCollects(known, labels, selects[..k], texts)
    {
      assert selects[..k + 1] == selects[..k] + [selects[k]];
      var part := SelectGuard(known, selects[k]);
      if part.Unsupported? {
        return Unsupported;
      }
      CollectSelect(known, labels, selects[..k], texts, selects[k], part);
      if part.Guarded? {
        texts := AppendUnique(texts, part.text);
      }
    }
    assert selects[..|selects|] == selects;
    CollectedRequired(known, r, labels, selects, texts);
    return if texts == [] then NoGuard else Guarded(Join(AND, WrapAll(texts)));
  }

  lemma UnsupportedGuard(known: Mapping, r: Requirements)
    ensures GuardsRequired(known, r, Unsupported)
  {}

  ghost predicate AllAllow(known: Mapping, selects: seq<ConditionSelect>, truth: Truth) {
    forall i :: 0 <= i < |selects| ==> Allows(known, selects[i], truth)
  }

  lemma AllAllowAppend(known: Mapping, selects: seq<ConditionSelect>, s: ConditionSelect, truth: Truth)
    ensures AllAllow(known, selects + [s], truth) <==> AllAllow(known, selects, truth) && Allows(known, s, truth)
  {
    hide Allows;
    assert forall i :: 0 <= i < |selects| ==> (selects + [s])[i] == selects[i];
    assert (selects + [s])[|selects|] == s;
  }

  lemma AllHoldAppend(known: Mapping, labels: seq<string>, key: string, truth: Truth)
    ensures AllHold(known, labels + [key], truth) <==> AllHold(known, labels, truth) && Holds(known, key, truth)
  {
    hide Holds;
    assert forall i :: 0 <= i < |labels| ==> (labels + [key])[i] == labels[i];
    assert (labels + [key])[|labels|] == key;
  }

  function WrapAll(texts: seq<Text>): (r: seq<Text>)
    ensures |r| == |texts| && forall i :: 0 <= i < |r| ==> r[i] == Wrapped(texts[i])
  {
    if texts == [] then [] else WrapAll(texts[..|texts| - 1]) + [Wrapped(texts[|texts| - 1])]
  }

  lemma JoinCollected(texts: seq<Text>, wanted: bool, truth: Truth)
    requires Collects(texts, wanted, truth)
    ensures texts == [] ==> wanted
    ensures texts != [] ==> EvaluateText(Join(AND, WrapAll(texts)), truth) == Some(wanted)
  {
    if texts != [] {
      var vs := Verdicts(texts, truth);
      forall i | 0 <= i < |texts| ensures AndText(WrapAll(texts)[i], vs[i], truth) {
        PieceMeans(texts[i], vs[i], truth);
      }
      hide Piece, Wrapped, TestText, NotText, AndText, OrText;
      JoinAnd(WrapAll(texts), vs, truth);
      AndIsOr(Join(AND, WrapAll(texts)), AllTrue(vs), truth);
      OrTextMeans(Join(AND, WrapAll(texts)), AllTrue(vs), truth);
    }
  }

  // ----- The structured predicate -----

  function Predicates(known: Mapping, s: ConditionSelect, onlyEmpty: bool): (r: seq<Condition>)
    requires KnownSelect(known, s)
    decreases |s.branches|
  {
    if s.branches == [] then []
    else
      var b := s.branches[|s.branches| - 1];
      var rest := Predicates(known, s.(branches := s.branches[..|s.branches| - 1]), onlyEmpty);
      if onlyEmpty && b.values != [] then rest else rest + [known[b.key]]
  }

  /** The availability predicate of a select, as `_loom_profile_condition` builds it. */
  function SelectCondition(known: Mapping, s: ConditionSelect): Condition
    requires KnownSelect(known, s)
  {
    var alternatives := Predicates(known, s, true);
    Any(if s.fallback == Some([]) then alternatives + [Not(Any(Predicates(known, s, false)))] else alternatives)
  }

  function LabelConditions(known: Mapping, labels: seq<string>): (r: seq<Condition>)
    requires KnownLabels(known, labels)
    ensures |r| == |labels| && forall i :: 0 <= i < |r| ==> r[i] == known[labels[i]]
  {
    if labels == [] then [] else LabelConditions(known, labels[..|labels| - 1]) + [known[labels[|labels| - 1]]]
  }

  function SelectConditions(known: Mapping, selects: seq<ConditionSelect>): (r: seq<Condition>)
    requires forall i :: 0 <= i < |selects| ==> KnownSelect(known, selects[i])
    ensures |r| == |selects| && forall i :: 0 <= i < |r| ==> r[i] == SelectCondition(known, selects[i])
  {
    if selects == [] then []
    else SelectConditions(known, selects[..|selects| - 1]) + [SelectCondition(known, selects[|selects| - 1])]
  }

  function ProfileCondition(known: Mapping, r: Requirements): Option<Condition> {
    if !Supported(known, r) then None
    else match r
      case Labels(labels) => Some(All(LabelConditions(known, labels)))
      case Select(s) => Some(SelectCondition(known, s))
      case Mixed(labels, selects) => Some(All([All(LabelConditions(known, labels))] + SelectConditions(known, selects)))
  }

  ghost predicate SomeEvaluates(cs: seq<Condition>, truth: Truth) {
    exists i :: 0 <= i < |cs| && Evaluate(cs[i], truth)
  }

  lemma SomeAppend(cs: seq<Condition>, c: Condition, truth: Truth)
    ensures SomeEvaluates(cs + [c], truth) <==> SomeEvaluates(cs, truth) || Evaluate(c, truth)
  {
    if i :| 0 <= i < |cs| && Evaluate(cs[i], truth) { assert Evaluate((cs + [c])[i], truth); }
    if Evaluate(c, truth) { assert Evaluate((cs + [c])[|cs|], truth); }
  }

  lemma {:induction false} PredicatesMean(known: Mapping, s: ConditionSelect, onlyEmpty: bool, truth: Truth)
    requires KnownSelect(known, s)
    ensures SomeEvaluates(Predicates(known, s, onlyEmpty), truth) <==>
            exists i :: 0 <= i < |s.branches| && (onlyEmpty ==> s.branches[i].values == []) &&
                        Holds(known, s.branches[i].key, truth)
    decreases |s.branches|
  {
    if s.branches != [] {
      var n := |s.branches| - 1;
      var front := s.(branches := s.branches[..n]);
      PredicatesMean(known, front, onlyEmpty, truth);
      SomeAppend(Predicates(known, front, onlyEmpty), known[s.branches[n].key], truth);
      hide SomeEvaluates;
      assert forall i :: 0 <= i < n ==> front.branches[i] == s.branches[i];
      if i :| 0 <= i < n && (onlyEmpty ==> s.branches[i].values == []) && Holds(known, s.branches[i].key, truth) {
        assert Holds(known, front.branches[i].key, truth);
      }
    }
  }

  lemma SelectConditionMeans(known: Mapping, s: ConditionSelect, truth: Truth)
    requires KnownSelect(known, s)
    ensures Evaluate(SelectCondition(known, s), truth) <==> Allows(known, s, truth)
  {
    PredicatesMean(known, s, true, truth);
    PredicatesMean(known, s, false, truth);
    var alternatives, all := Predicates(known, s, true), Predicates(known, s, false);
    assert Evaluate(Any(all), truth) == SomeEvaluates(all, truth);
    SomeAppend(alternatives, Not(Any(all)), truth);
    hide Predicates;
  }

  /** The structured predicate says what the requirements say. */
  lemma ProfileConditionMeans(known: Mapping, r: Requirements, truth: Truth)
    requires Supported(known, r)
    ensures Evaluate(ProfileCondition(known, r).value, truth) <==> Required(known, r, truth)
  {
    match r
    case Labels(labels) =>
    case Select(s) => SelectConditionMeans(known, s, truth);
    case Mixed(labels, selects) =>
      var heads, tails := All(LabelConditions(known, labels)), SelectConditions(known, selects);
      forall i | 0 <= i < |selects| ensures Evaluate(tails[i], truth) <==> Allows(known, selects[i], truth) {
        SelectConditionMeans(known, selects[i], truth);
      }
      hide SelectCondition, Allows;
      ConjunctionMeans(heads, tails, truth);
      assert Evaluate(heads, truth) <==> AllHold(known, labels, truth);
      hide Evaluate;
  }

  lemma ConjunctionMeans(first: Condition, rest: seq<Condition>, truth: Truth)
    ensures Evaluate(All([first] + rest), truth) <==>
            Evaluate(first, truth) && forall i :: 0 <= i < |rest| ==> Evaluate(rest[i], truth)
  {
    var all := [first] + rest;
    assert all[0] == first && forall i :: 0 <= i < |rest| ==> all[i + 1] == rest[i];
    assert Evaluate(All(all), truth) <==> forall i :: 0 <= i < |all| ==> Evaluate(all[i], truth);
    hide Evaluate;
  }

  /** The emitted guard and the profile predicate agree under every configuration. */
  lemma GuardMatchesProfile(known: Mapping, r: Requirements, g: Guard)
    requires Supported(known, r) && !g.Unsupported? && GuardsRequired(known, r, g)
    ensures forall truth: Truth :: Ready(known, truth) ==>
              var available := Evaluate(ProfileCondition(known, r).value, truth);
              if g.NoGuard? then available else EvaluateText(g.text, truth) == Some(available)
  {
    hide EvaluateText, Evaluate, Required, Ready, Supported;
    forall truth: Truth | Ready(known, truth)
      ensures Evaluate(ProfileCondition(known, r).value, truth) <==> Required(known, r, truth)
    {
      ProfileConditionMeans(known, r, truth);
    }
  }
}
