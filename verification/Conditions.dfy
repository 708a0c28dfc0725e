/**
 Selection predicates and their text projection. Text is read back by the grammar of the
 CMake `if` command: tests bind tighter than NOT, NOT tighter than AND, AND tighter than OR.
 */
module Conditions {
  import opened Optional

  /** A configuration test; its truth under a configuration is given by a `Truth`. */
  datatype Atom = Flag(name: string) | Equal(name: string, value: string)
                | Matches(name: string, pattern: string) | Greater(name: string, bound: string)

  type Truth = Atom -> bool

  datatype Condition = Is(atom: Atom) | Not(operand: Condition)
                     | All(operands: seq<Condition>) | Any(operands: seq<Condition>)

  predicate Evaluate(c: Condition, truth: Truth) {
    match c
    case Is(a) => truth(a)
    case Not(operand) => !Evaluate(operand, truth)
    case All(operands) => forall i :: 0 <= i < |operands| ==> Evaluate(operands[i], truth)
    case Any(operands) => exists i :: 0 <= i < |operands| && Evaluate(operands[i], truth)
  }

  // ----- Text -----

  datatype Token = Word(text: string) | Quoted(text: string) | Open | Close

  type Text = seq<Token>

  const OR := Word("OR")
  const AND := Word("AND")
  const NOT := Word("NOT")

  function RenderAtom(a: Atom): Text {
    match a
    case Flag(name) => [Word(name)]
    case Equal(name, value) => [Word(name), Word("STREQUAL"), Quoted(value)]
    case Matches(name, pattern) => [Word(name), Word("MATCHES"), Quoted(pattern)]
    case Greater(name, bound) => [Word(name), Word("GREATER"), Word(bound)]
  }

  function Join(separator: Token, parts: seq<Text>): Text {
    if parts == [] then [] else if |parts| == 1 then parts[0]
    else Join(separator, parts[..|parts| - 1]) + [separator] + parts[|parts| - 1]
  }

  function Render(c: Condition): Text
    decreases c, 0
  {
    match c
    case Is(a) => RenderAtom(a)
    case Not(operand) => [NOT] + Group(operand)
    case All(operands) => if operands == [] then [Word("TRUE")] else Join(AND, Groups(c, operands))
    case Any(operands) => if operands == [] then [Word("FALSE")] else Join(OR, Groups(c, operands))
  }

  /** Only conjunctions and disjunctions are parenthesised. */
  function Group(c: Condition): Text
    decreases c, 1
  {
    if c.All? || c.Any? then [Open] + Render(c) + [Close] else Render(c)
  }

  function Groups(ghost parent: Condition, operands: seq<Condition>): (r: seq<Text>)
    requires forall i :: 0 <= i < |operands| ==> operands[i] < parent
    ensures |r| == |operands| && forall i :: 0 <= i < |r| ==> r[i] == Group(operands[i])
    decreases parent, 0, |operands|
  {
    if operands == [] then []
    else Groups(parent, operands[..|operands| - 1]) + [Group(operands[|operands| - 1])]
  }

  // ----- Reading text back -----

  /** The operators of `if`: connectives, tests of one operand, and tests between two. */
  predicate IsKeyword(w: string) {
    w in {"AND", "OR", "NOT"} || IsUnaryTest(w) || IsBinaryTest(w)
  }

  predicate IsUnaryTest(w: string) {
    w in {"COMMAND", "DEFINED", "EXISTS", "POLICY", "TARGET", "TEST", "IS_ABSOLUTE", "IS_DIRECTORY", "IS_EXECUTABLE",
          "IS_READABLE", "IS_SYMLINK", "IS_WRITABLE"}
  }

  predicate IsBinaryTest(w: string) {
    w in {"MATCHES", "IN_LIST", "IS_NEWER_THAN", "PATH_EQUAL",
          "EQUAL", "LESS", "LESS_EQUAL", "GREATER", "GREATER_EQUAL",
          "STREQUAL", "STRLESS", "STRLESS_EQUAL", "STRGREATER", "STRGREATER_EQUAL", "VERSION_EQUAL", "VERSION_LESS",
          "VERSION_LESS_EQUAL", "VERSION_GREATER", "VERSION_GREATER_EQUAL"}
  }

  predicate IsTrueWord(w: string) {
    w in {"TRUE", "ON", "YES", "Y"}
  }

  predicate IsFalseWord(w: string) {
    w in {"FALSE", "OFF", "NO", "N", "IGNORE", "NOTFOUND"}
  }

  /** A bare word is a constant or a configuration flag. */
  predicate WordHolds(w: string, truth: Truth) {
    IsTrueWord(w) || (!IsFalseWord(w) && truth(Flag(w)))
  }

  datatype Reading = Reading(value: bool, rest: Text)

  function ReadOr(t: Text, truth: Truth): (r: Option<Reading>)
    ensures r.Some? ==> |r.value.rest| < |t|
    decreases |t|, 3
  {
    match ReadAnd(t, truth)
    case None => None
    case Some(left) => AfterAnd(left, truth)
  }

  function AfterAnd(left: Reading, truth: Truth): (r: Option<Reading>)
    ensures r.Some? ==> |r.value.rest| <= |left.rest|
    decreases |left.rest|, 4
  {
    if left.rest == [] || left.rest[0] != OR then Some(left)
    else match ReadOr(left.rest[1..], truth)
      case None => None
      case Some(right) => Some(Reading(left.value || right.value, right.rest))
  }

  function ReadAnd(t: Text, truth: Truth): (r: Option<Reading>)
    ensures r.Some? ==> |r.value.rest| < |t|
    decreases |t|, 2
  {
    match ReadNot(t, truth)
    case None => None
    case Some(left) => AfterNot(left, truth)
  }

  function AfterNot(left: Reading, truth: Truth): (r: Option<Reading>)
    ensures r.Some? ==> |r.value.rest| <= |left.rest|
    decreases |left.rest|, 3
  {
    if left.rest == [] || left.rest[0] != AND then Some(left)
    else match ReadAnd(left.rest[1..], truth)
      case None => None
      case Some(right) => Some(Reading(left.value && right.value, right.rest))
  }

  /** NOT takes the next operand; a second NOT is no operand. */
  function ReadNot(t: Text, truth: Truth): (r: Option<Reading>)
    ensures r.Some? ==> |r.value.rest| < |t|
    decreases |t|, 1
  {
    if t != [] && t[0] == NOT then
      match ReadTest(t[1..], truth)
      case None => None
      case Some(operand) => Some(Reading(!operand.value, operand.rest))
    else ReadTest(t, truth)
  }

  function ReadTest(t: Text, truth: Truth): (r: Option<Reading>)
    ensures r.Some? ==> |r.value.rest| < |t|
    decreases |t|, 0
  {
    if t == [] || t[0].Close? || t[0].Quoted? then None
    else if t[0].Open? then
      match ReadOr(t[1..], truth)
      case None => None
      case Some(inner) =>
        if inner.rest != [] && inner.rest[0].Close? then Some(Reading(inner.value, inner.rest[1..])) else None
    else if IsKeyword(t[0].text) then None
    else if |t| >= 3 && t[1] == Word("STREQUAL") && t[2].Quoted? then
      Some(Reading(truth(Equal(t[0].text, t[2].text)), t[3..]))
    else if |t| >= 3 && t[1] == Word("MATCHES") && t[2].Quoted? then
      Some(Reading(truth(Matches(t[0].text, t[2].text)), t[3..]))
    else if |t| >= 3 && t[1] == Word("GREATER") && t[2].Word? then
      Some(Reading(truth(Greater(t[0].text, t[2].text)), t[3..]))
    else Some(Reading(WordHolds(t[0].text, truth), t[1..]))
  }

  /** The value of a complete condition text, if it is one. */
  function EvaluateText(t: Text, truth: Truth): Option<bool> {
    match ReadOr(t, truth)
    case Some(r) => if r.rest == [] then Some(r.value) else None
    case None => None
  }

  // ----- What a text means in context -----

  /** What may follow a finished operand. */
  predicate Ends(rest: Text, operators: set<Token>) {
    rest == [] || rest[0].Close? || rest[0] in operators
  }

  ghost predicate TestText(t: Text, v: bool, truth: Truth) {
    && t != [] && t[0] != NOT
    && forall rest :: Ends(rest, {AND, OR}) ==> ReadTest(t + rest, truth) == Some(Reading(v, rest))
  }

  ghost predicate NotText(t: Text, v: bool, truth: Truth) {
    forall rest :: Ends(rest, {AND, OR}) ==> ReadNot(t + rest, truth) == Some(Reading(v, rest))
  }

  ghost predicate AndText(t: Text, v: bool, truth: Truth) {
    forall rest :: Ends(rest, {AND, OR}) ==> ReadAnd(t + rest, truth) == AfterNot(Reading(v, rest), truth)
  }

  ghost predicate OrText(t: Text, v: bool, truth: Truth) {
    forall rest :: Ends(rest, {OR}) ==> ReadOr(t + rest, truth) == AfterAnd(Reading(v, rest), truth)
  }

  lemma TestIsNot(t: Text, v: bool, truth: Truth)
    requires TestText(t, v, truth)
    ensures NotText(t, v, truth)
  {
    forall rest | Ends(rest, {AND, OR}) ensures ReadNot(t + rest, truth) == Some(Reading(v, rest)) {
      assert (t + rest)[0] == t[0];
    }
  }

  lemma NotIsAnd(t: Text, v: bool, truth: Truth)
    requires NotText(t, v, truth)
    ensures AndText(t, v, truth)
  {}

  lemma AndIsOr(t: Text, v: bool, truth: Truth)
    requires AndText(t, v, truth)
    ensures OrText(t, v, truth)
  {
    forall rest | Ends(rest, {OR}) ensures ReadOr(t + rest, truth) == AfterAnd(Reading(v, rest), truth) {
      assert AfterNot(Reading(v, rest), truth) == Some(Reading(v, rest));
    }
  }

  lemma Negated(t: Text, v: bool, truth: Truth)
    requires TestText(t, v, truth)
    ensures NotText([NOT] + t, !v, truth)
  {
    hide ReadTest, Ends;
    forall rest | Ends(rest, {AND, OR}) ensures ReadNot([NOT] + t + rest, truth) == Some(Reading(!v, rest)) {
      var whole := [NOT] + t + rest;
      assert whole[0] == NOT && whole[1..] == t + rest;
    }
  }

  lemma Parenthesised(t: Text, v: bool, truth: Truth)
    requires OrText(t, v, truth)
    ensures TestText([Open] + t + [Close], v, truth)
  {
    forall rest | Ends(rest, {AND, OR}) ensures ReadTest([Open] + t + [Close] + rest, truth) == Some(Reading(v, rest)) {
      var whole := [Open] + t + [Close] + rest;
      assert whole[1..] == t + ([Close] + rest);
      assert Ends([Close] + rest, {OR});
      assert AfterAnd(Reading(v, [Close] + rest), truth) == Some(Reading(v, [Close] + rest));
    }
  }

  lemma Conjoined(a: Text, v: bool, b: Text, w: bool, truth: Truth)
    requires AndText(a, v, truth) && AndText(b, w, truth)
    ensures AndText(a + [AND] + b, v && w, truth)
  {
    forall rest | Ends(rest, {AND, OR})
      ensures ReadAnd(a + [AND] + b + rest, truth) == AfterNot(Reading(v && w, rest), truth)
    {
      assert a + [AND] + b + rest == a + ([AND] + (b + rest));
      assert ([AND] + (b + rest))[1..] == b + rest;
      assert Ends([AND] + (b + rest), {AND, OR});
    }
  }

  lemma Disjoined(a: Text, v: bool, b: Text, w: bool, truth: Truth)
    requires OrText(a, v, truth) && OrText(b, w, truth)
    ensures OrText(a + [OR] + b, v || w, truth)
  {
    forall rest | Ends(rest, {OR})
      ensures ReadOr(a + [OR] + b + rest, truth) == AfterAnd(Reading(v || w, rest), truth)
    {
      assert a + [OR] + b + rest == a + ([OR] + (b + rest));
      assert ([OR] + (b + rest))[1..] == b + rest;
      assert Ends([OR] + (b + rest), {OR});
    }
  }

  ghost predicate AllTrue(vs: seq<bool>) { forall i :: 0 <= i < |vs| ==> vs[i] }
  ghost predicate AnyTrue(vs: seq<bool>) { exists i :: 0 <= i < |vs| && vs[i] }

  lemma {:induction false} JoinAnd(parts: seq<Text>, vs: seq<bool>, truth: Truth)
    requires |parts| == |vs| > 0 && forall i :: 0 <= i < |parts| ==> AndText(parts[i], vs[i], truth)
    ensures AndText(Join(AND, parts), AllTrue(vs), truth)
    decreases |parts|
  {
    if |parts| == 1 {
      assert AllTrue(vs) == vs[0];
    } else {
      var n := |parts| - 1;
      JoinAnd(parts[..n], vs[..n], truth);
      Conjoined(Join(AND, parts[..n]), AllTrue(vs[..n]), parts[n], vs[n], truth);
      assert AllTrue(vs) == (AllTrue(vs[..n]) && vs[n]) by { assert vs == vs[..n] + [vs[n]]; }
    }
  }

  lemma {:induction false} JoinOr(parts: seq<Text>, vs: seq<bool>, truth: Truth)
    requires |parts| == |vs| > 0 && forall i :: 0 <= i < |parts| ==> OrText(parts[i], vs[i], truth)
    ensures OrText(Join(OR, parts), AnyTrue(vs), truth)
    decreases |parts|
  {
    if |parts| == 1 {
      assert AnyTrue(vs) == vs[0];
    } else {
      var n := |parts| - 1;
      JoinOr(parts[..n], vs[..n], truth);
      Disjoined(Join(OR, parts[..n]), AnyTrue(vs[..n]), parts[n], vs[n], truth);
      assert AnyTrue(vs) == (AnyTrue(vs[..n]) || vs[n]) by {
        assert vs == vs[..n] + [vs[n]];
        if AnyTrue(vs[..n]) {
          var i :| 0 <= i < n && vs[..n][i];
          assert vs[i];
        }
      }
    }
  }

  // ----- Rendered conditions -----

  /** Setting names are ordinary words: not operators, and not constants that are always true. */
  predicate ProperAtom(a: Atom) {
    !IsKeyword(a.name) && (a.Flag? ==> !IsTrueWord(a.name))
  }

  predicate Proper(c: Condition) {
    match c
    case Is(a) => ProperAtom(a)
    case Not(operand) => Proper(operand)
    case All(operands) => forall i :: 0 <= i < |operands| ==> Proper(operands[i])
    case Any(operands) => forall i :: 0 <= i < |operands| ==> Proper(operands[i])
  }

  /** No negation stands directly below another one. */
  predicate SingleNots(c: Condition) {
    match c
    case Is(_) => true
    case Not(operand) => !operand.Not? && SingleNots(operand)
    case All(operands) => forall i :: 0 <= i < |operands| ==> SingleNots(operands[i])
    case Any(operands) => forall i :: 0 <= i < |operands| ==> SingleNots(operands[i])
  }

  /** The configuration does not switch on a setting that is named like a false constant. */
  ghost predicate ConstantsKept(truth: Truth) {
    forall w :: IsFalseWord(w) ==> !truth(Flag(w))
  }

  lemma AtomText(a: Atom, truth: Truth)
    requires ProperAtom(a) && ConstantsKept(truth)
    ensures TestText(RenderAtom(a), truth(a), truth)
  {
    forall rest | Ends(rest, {AND, OR})
      ensures ReadTest(RenderAtom(a) + rest, truth) == Some(Reading(truth(a), rest))
    {
      var t := RenderAtom(a) + rest;
      if a.Flag? {
        assert t[1..] == rest;
      } else {
        assert t[3..] == rest;
      }
    }
  }

  lemma WordText(w: string, truth: Truth)
    requires w == "TRUE" || w == "FALSE"
    ensures TestText([Word(w)], w == "TRUE", truth)
  {
    forall rest | Ends(rest, {AND, OR}) ensures ReadTest([Word(w)] + rest, truth) == Some(Reading(w == "TRUE", rest)) {
      assert ([Word(w)] + rest)[1..] == rest;
    }
  }

  /** The strongest context a rendered condition fits: negations bind tightest, disjunctions least. */
  ghost predicate FitsContext(c: Condition, t: Text, v: bool, truth: Truth) {
    match c
    case Is(_) => TestText(t, v, truth)
    case Not(_) => NotText(t, v, truth)
    case All(_) => AndText(t, v, truth)
    case Any(_) => OrText(t, v, truth)
  }

  lemma {:induction false} RenderFits(c: Condition, truth: Truth)
    requires Proper(c) && SingleNots(c) && ConstantsKept(truth)
    ensures FitsContext(c, Render(c), Evaluate(c, truth), truth)
    decreases c, 0
  {
    hide TestText, NotText, AndText, OrText;
    match c
    case Is(a) => AtomText(a, truth);
    case Not(operand) =>
      GroupTests(operand, truth);
      Negated(Group(operand), Evaluate(operand, truth), truth);
    case All(operands) =>
      if operands == [] {
        WordText("TRUE", truth);
        TestIsNot([Word("TRUE")], true, truth);
        NotIsAnd([Word("TRUE")], true, truth);
      } else {
        var parts, vs := Groups(c, operands), Values(operands, truth);
        forall i | 0 <= i < |operands| ensures AndText(parts[i], vs[i], truth) {
          GroupFits(operands[i], truth);
          NotIsAnd(parts[i], vs[i], truth);
        }
        JoinAnd(parts, vs, truth);
      }
    case Any(operands) =>
      if operands == [] {
        WordText("FALSE", truth);
        TestIsOr([Word("FALSE")], false, truth);
      } else {
        var parts, vs := Groups(c, operands), Values(operands, truth);
        forall i | 0 <= i < |operands| ensures OrText(parts[i], vs[i], truth) {
          GroupFits(operands[i], truth);
          NotIsAnd(parts[i], vs[i], truth);
          AndIsOr(parts[i], vs[i], truth);
        }
        JoinOr(parts, vs, truth);
      }
  }

  function Values(operands: seq<Condition>, truth: Truth): (vs: seq<bool>)
    ensures |vs| == |operands| && forall i :: 0 <= i < |vs| ==> vs[i] == Evaluate(operands[i], truth)
  {
    if operands == [] then []
    else Values(operands[..|operands| - 1], truth) + [Evaluate(operands[|operands| - 1], truth)]
  }

  lemma TestIsOr(t: Text, v: bool, truth: Truth)
    requires TestText(t, v, truth)
    ensures OrText(t, v, truth)
  {
    TestIsNot(t, v, truth);
    NotIsAnd(t, v, truth);
    AndIsOr(t, v, truth);
  }

  /** A grouped condition other than a negation is an operand of its own. */
  lemma {:induction false} GroupTests(c: Condition, truth: Truth)
    requires Proper(c) && SingleNots(c) && ConstantsKept(truth) && !c.Not?
    ensures TestText(Group(c), Evaluate(c, truth), truth)
    decreases c, 1
  {
    hide TestText, NotText, AndText, OrText;
    RenderFits(c, truth);
    var t, v := Render(c), Evaluate(c, truth);
    if c.All? { AndIsOr(t, v, truth); }
    if !c.Is? { Parenthesised(t, v, truth); }
  }

  lemma {:induction false} GroupFits(c: Condition, truth: Truth)
    requires Proper(c) && SingleNots(c) && ConstantsKept(truth)
    ensures NotText(Group(c), Evaluate(c, truth), truth)
    decreases c, 2
  {
    hide TestText, NotText, AndText, OrText;
    if c.Not? {
      RenderFits(c, truth);
    } else {
      GroupTests(c, truth);
      TestIsNot(Group(c), Evaluate(c, truth), truth);
    }
  }

  lemma RenderIsOr(c: Condition, truth: Truth)
    requires Proper(c) && SingleNots(c) && ConstantsKept(truth)
    ensures OrText(Render(c), Evaluate(c, truth), truth)
  {
    hide TestText, NotText, AndText, OrText;
    RenderFits(c, truth);
    var t, v := Render(c), Evaluate(c, truth);
    if c.Is? { TestIsNot(t, v, truth); }
    if c.Is? || c.Not? { NotIsAnd(t, v, truth); }
    if !c.Any? { AndIsOr(t, v, truth); }
  }

  /** Rendering preserves meaning exactly where no negation stands directly below another; a text
      with such a negation is rejected as a whole. */
  lemma RenderMeans(c: Condition, truth: Truth)
    requires Proper(c) && ConstantsKept(truth)
    ensures EvaluateText(Render(c), truth) == if SingleNots(c) then Some(Evaluate(c, truth)) else None
  {
    if SingleNots(c) {
      RenderIsOr(c, truth);
      OrTextMeans(Render(c), Evaluate(c, truth), truth);
    } else {
      RenderFails(c, truth);
      assert Render(c) + [] == Render(c);
    }
  }

  /** A double negation renders to a text that no configuration accepts. */
  lemma DoubleNotRejected(a: Atom, truth: Truth)
    ensures EvaluateText(Render(Not(Not(Is(a)))), truth) == None
  {
    var t := Render(Not(Not(Is(a))));
    TwiceNegated(Not(Is(a)), truth);
    assert t + [] == t;
  }

  // ----- Texts that cannot be read -----

  ghost predicate NotFails(t: Text, truth: Truth) {
    forall rest :: ReadNot(t + rest, truth) == None
  }

  ghost predicate AndFails(t: Text, truth: Truth) {
    forall rest :: ReadAnd(t + rest, truth) == None
  }

  ghost predicate OrFails(t: Text, truth: Truth) {
    forall rest :: ReadOr(t + rest, truth) == None
  }

  lemma FailsAnyway(t: Text, truth: Truth)
    ensures NotFails(t, truth) ==> AndFails(t, truth)
    ensures AndFails(t, truth) ==> OrFails(t, truth)
  {}

  lemma ParenthesisedFails(t: Text, truth: Truth)
    requires OrFails(t, truth)
    ensures NotFails([Open] + t + [Close], truth) && NotFails([NOT] + ([Open] + t + [Close]), truth)
  {
    forall rest ensures ReadTest([Open] + t + [Close] + rest, truth) == None {
      assert ([Open] + t + [Close] + rest)[1..] == t + ([Close] + rest);
    }
    forall rest ensures ReadNot([NOT] + ([Open] + t + [Close]) + rest, truth) == None {
      assert ([NOT] + ([Open] + t + [Close]) + rest)[1..] == [Open] + t + [Close] + rest;
    }
    assert forall rest :: ([Open] + t + [Close] + rest)[0] == Open;
  }

  /** The first operand that cannot be read spoils a conjunction, whatever follows it. */
  lemma {:induction false} JoinAndFails(parts: seq<Text>, vs: seq<bool>, j: nat, truth: Truth)
    requires |vs| == j < |parts| && forall i :: 0 <= i < j ==> AndText(parts[i], vs[i], truth)
    requires AndFails(parts[j], truth)
    ensures AndFails(Join(AND, parts), truth)
    decreases |parts|
  {
    var n := |parts| - 1;
    if n > 0 {
      var front := Join(AND, parts[..n]);
      if j < n { JoinAndFails(parts[..n], vs, j, truth); } else { JoinAnd(parts[..n], vs, truth); }
      forall rest ensures ReadAnd(front + [AND] + parts[n] + rest, truth) == None {
        assert front + [AND] + parts[n] + rest == front + ([AND] + (parts[n] + rest));
        assert ([AND] + (parts[n] + rest))[1..] == parts[n] + rest;
        assert Ends([AND] + (parts[n] + rest), {AND, OR});
      }
    }
  }

  lemma {:induction false} JoinOrFails(parts: seq<Text>, vs: seq<bool>, j: nat, truth: Truth)
    requires |vs| == j < |parts| && forall i :: 0 <= i < j ==> OrText(parts[i], vs[i], truth)
    requires OrFails(parts[j], truth)
    ensures OrFails(Join(OR, parts), truth)
    decreases |parts|
  {
    var n := |parts| - 1;
    if n > 0 {
      var front := Join(OR, parts[..n]);
      if j < n { JoinOrFails(parts[..n], vs, j, truth); } else { JoinOr(parts[..n], vs, truth); }
      forall rest ensures ReadOr(front + [OR] + parts[n] + rest, truth) == None {
        assert front + [OR] + parts[n] + rest == front + ([OR] + (parts[n] + rest));
        assert ([OR] + (parts[n] + rest))[1..] == parts[n] + rest;
        assert Ends([OR] + (parts[n] + rest), {OR});
      }
    }
  }

  /** The first operand with a double negation. */
  lemma {:induction false} FirstDouble(operands: seq<Condition>) returns (j: nat)
    requires exists i :: 0 <= i < |operands| && !SingleNots(operands[i])
    ensures j < |operands| && !SingleNots(operands[j]) && forall i :: 0 <= i < j ==> SingleNots(operands[i])
  {
    j := 0;
    while SingleNots(operands[j])
      invariant j < |operands| && forall i :: 0 <= i < j ==> SingleNots(operands[i])
      invariant exists i :: j <= i < |operands| && !SingleNots(operands[i])
      decreases |operands| - j
    {
      j := j + 1;
    }
  }

  lemma {:induction false} RenderFails(c: Condition, truth: Truth)
    requires Proper(c) && !SingleNots(c) && ConstantsKept(truth)
    ensures OrFails(Render(c), truth) && (c.Not? ==> NotFails(Render(c), truth))
    decreases c, 0
  {
    hide TestText, NotText, AndText, OrText, NotFails, AndFails, OrFails;
    match c
    case Not(operand) => NegationFails(operand, truth);
    case All(operands) =>
      var j := FirstDouble(operands);
      var parts, vs := Groups(c, operands), Values(operands[..j], truth);
      forall i | 0 <= i < j ensures AndText(parts[i], vs[i], truth) {
        GroupFits(operands[i], truth);
        NotIsAnd(parts[i], vs[i], truth);
      }
      GroupFails(operands[j], truth);
      FailsAnyway(parts[j], truth);
      JoinAndFails(parts, vs, j, truth);
      FailsAnyway(Render(c), truth);
    case Any(operands) =>
      var j := FirstDouble(operands);
      var parts, vs := Groups(c, operands), Values(operands[..j], truth);
      forall i | 0 <= i < j ensures OrText(parts[i], vs[i], truth) {
        GroupFits(operands[i], truth);
        NotIsAnd(parts[i], vs[i], truth);
        AndIsOr(parts[i], vs[i], truth);
      }
      GroupFails(operands[j], truth);
      FailsAnyway(parts[j], truth);
      JoinOrFails(parts, vs, j, truth);
  }

  lemma {:induction false} GroupFails(c: Condition, truth: Truth)
    requires Proper(c) && !SingleNots(c) && ConstantsKept(truth)
    ensures NotFails(Group(c), truth)
    decreases c, 1
  {
    hide NotFails, AndFails, OrFails;
    RenderFails(c, truth);
    if !c.Not? { ParenthesisedFails(Render(c), truth); }
  }

  /** A negation fails when its operand does, or is a negation itself. */
  lemma {:induction false} NegationFails(operand: Condition, truth: Truth)
    requires Proper(operand) && ConstantsKept(truth) && (operand.Not? || !SingleNots(operand))
    ensures NotFails(Render(Not(operand)), truth) && OrFails(Render(Not(operand)), truth)
    decreases operand, 2
  {
    hide NotFails, AndFails, OrFails;
    if operand.Not? {
      TwiceNegated(operand, truth);
    } else {
      RenderFails(operand, truth);
      ParenthesisedFails(Render(operand), truth);
    }
    FailsAnyway(Render(Not(operand)), truth);
  }

  lemma TwiceNegated(operand: Condition, truth: Truth)
    requires operand.Not?
    ensures NotFails(Render(Not(operand)), truth) && OrFails(Render(Not(operand)), truth)
  {
    var t, inner := Render(Not(operand)), Render(operand);
    assert inner == [NOT] + Group(operand.operand) && Group(operand) == inner;
    assert t == [NOT] + Group(operand);
    forall rest ensures ReadNot(t + rest, truth) == None {
      assert (t + rest)[0] == NOT && (t + rest)[1..] == inner + rest && (inner + rest)[0] == NOT;
    }
    FailsAnyway(t, truth);
  }

  lemma OrTextMeans(t: Text, v: bool, truth: Truth)
    requires OrText(t, v, truth)
    ensures EvaluateText(t, truth) == Some(v)
  {
    assert t + [] == t && Ends([], {OR});
    assert AfterAnd(Reading(v, []), truth) == Some(Reading(v, []));
  }
}
