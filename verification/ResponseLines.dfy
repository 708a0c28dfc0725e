/**
 What a rewrapped response file looks like, character by character: the only blanks outside quotes
 are carriage return and line feed after each token, and each physical line is one argument.
 */
module ResponseLines {
  import opened Optional
  import opened CommandLine
  import opened ResponseFile

  // ----- Blanks outside quotes -----

  predicate IsBlank(c: char) {
    c == ' ' || c == '\t' || c == '\r' || c == '\n' || c == '\U{0B}' || c == '\U{0C}'
  }

  /** A blank with an even number of unescaped quotes before it. */
  predicate OpenBlank(s: string, i: nat) {
    i < |s| && IsBlank(s[i]) && |Delimiters(s, i)| % 2 == 0
  }

  function OpenBlanks(s: string): set<nat> {
    set i: nat | i < |s| && OpenBlank(s, i)
  }

  /** The blank belongs to a carriage return and line feed pair directly after other text. */
  predicate InBreak(s: string, i: nat) {
    || (&& i + 1 < |s| && s[i] == '\r' && s[i + 1] == '\n' && OpenBlank(s, i + 1)
        && i > 0 && !OpenBlank(s, i - 1))
    || (&& 1 < i < |s| && s[i] == '\n' && s[i - 1] == '\r' && OpenBlank(s, i - 1)
        && !OpenBlank(s, i - 2))
  }

  lemma OpenIff(s: string, i: nat)
    requires i < |s|
    ensures OpenBlank(s, i) <==> s[i] in WHITESPACE && !Final(START, s[..i]).quoted
  {
    hide Delimiters, SlashesBefore, Final;
    QuotedIsParity(s, i);
  }

  lemma {:induction false} FinalConcat(st: Lex, a: string, b: string)
    ensures Final(st, a + b) == Final(Final(st, a), b)
  {
    if b == [] {
      assert a + b == a;
    } else {
      var init := b[..|b| - 1];
      FinalConcat(st, a, init);
      assert (a + b)[..|a + b| - 1] == a + init && (a + b)[|a + b| - 1] == b[|b| - 1];
    }
  }

  lemma FinalOne(st: Lex, c: char)
    ensures Final(st, [c]) == Step(st, c)
  {
    assert [c][..0] == [];
  }

  /** A token cuts nothing: its blanks are quoted, and it ends where the scanner does. */
  lemma {:induction false} ThroughFinal(st: Lex, t: string)
    requires Through(st, t).Some?
    ensures Final(st, t) == Through(st, t).value
    ensures forall k :: 0 <= k < |t| && t[k] in WHITESPACE ==> Final(st, t[..k]).quoted
    decreases |t|
  {
    hide Final, Step;
    if t == [] {
      NothingFinal(st);
    } else {
      var next, rest := Step(st, t[0]), t[1..];
      ThroughFinal(next, rest);
      FinalOne(st, t[0]);
      assert [t[0]] + rest == t;
      FinalConcat(st, [t[0]], rest);
      forall k | 0 <= k < |t| && t[k] in WHITESPACE ensures Final(st, t[..k]).quoted {
        if k == 0 {
          NothingFinal(st);
        } else {
          assert t[..k] == [t[0]] + rest[..k - 1] && rest[k - 1] == t[k];
          FinalConcat(st, [t[0]], rest[..k - 1]);
        }
      }
    }
  }

  lemma NothingFinal(st: Lex)
    ensures Final(st, []) == st
  {}

  ghost predicate AreTokens(tokens: seq<string>) {
    forall i :: 0 <= i < |tokens| ==> IsToken(tokens[i])
  }

  /** The scanner state around one more line. */
  lemma LineStates(base: string, t: string)
    requires Final(START, base) == START && IsToken(t)
    ensures forall k :: 0 <= k < |t| && t[k] in WHITESPACE ==> Final(START, base + t[..k]).quoted
    ensures !Final(START, base + t).quoted && !Final(START, base + t + ['\r']).quoted
    ensures Final(START, base + t + ['\r', '\n']) == START && t != []
  {
    hide Final, Through;
    ThroughFinal(START, t);
    FinalConcat(START, base, t);
    forall k | 0 <= k < |t| && t[k] in WHITESPACE ensures Final(START, base + t[..k]).quoted {
      FinalConcat(START, base, t[..k]);
    }
    FinalConcat(START, base + t, ['\r']);
    FinalOne(Final(START, base + t), '\r');
    assert base + t + ['\r', '\n'] == (base + t + ['\r']) + ['\n'];
    FinalConcat(START, base + t + ['\r'], ['\n']);
    FinalOne(Final(START, base + t + ['\r']), '\n');
  }

  /** One more line adds exactly its line end to the blanks outside quotes. */
  lemma LineBlanks(base: string, t: string, i: nat)
    requires Final(START, base) == START && IsToken(t)
    ensures var s, n := base + t + ['\r', '\n'], |base| + |t|;
            OpenBlank(s, i) <==> OpenBlank(base, i) || i == n || i == n + 1
  {
    hide Final, OpenBlank, Through;
    var s, n := base + t + ['\r', '\n'], |base| + |t|;
    LineStates(base, t);
    if i < |s| {
      OpenIff(s, i);
      if i < |base| {
        OpenIff(base, i);
        assert s[..i] == base[..i] && s[i] == base[i];
      } else if i < n {
        assert s[..i] == base + t[..i - |base|] && s[i] == t[i - |base|];
        NotBeyond(base, i);
      } else if i == n {
        assert s[..i] == base + t;
      } else {
        assert s[..i] == base + t + ['\r'];
      }
    } else {
      NotBeyond(s, i);
      NotBeyond(base, i);
    }
  }

  lemma NotBeyond(s: string, i: nat)
    requires i >= |s|
    ensures !OpenBlank(s, i)
  {}

  lemma {:induction false} LinesBlanks(tokens: seq<string>)
    requires AreTokens(tokens)
    ensures Final(START, Lines(tokens)) == START
    ensures |OpenBlanks(Lines(tokens))| == 2 * |tokens|
    ensures forall i :: OpenBlank(Lines(tokens), i) ==> InBreak(Lines(tokens), i)
  {
    hide IsToken, Final, OpenBlank;
    if tokens == [] {
      NothingFinal(START);
      assert OpenBlanks([]) == {};
      forall i ensures !OpenBlank([], i) { NotBeyond([], i); }
    } else {
      var init, t := tokens[..|tokens| - 1], tokens[|tokens| - 1];
      LinesBlanks(init);
      var base, s := Lines(init), Lines(tokens);
      assert s == base + t + ['\r', '\n'];
      var n := |base| + |t|;
      LineStates(base, t);
      forall i ensures OpenBlank(s, i) <==> OpenBlank(base, i) || i == n || i == n + 1 {
        LineBlanks(base, t, i);
      }
      LineCounts(base, t);
      LineBreaks(base, t);
    }
  }

  lemma LineCounts(base: string, t: string)
    requires var s, n := base + t + ['\r', '\n'], |base| + |t|;
             forall i :: OpenBlank(s, i) <==> OpenBlank(base, i) || i == n || i == n + 1
    ensures |OpenBlanks(base + t + ['\r', '\n'])| == |OpenBlanks(base)| + 2
  {
    hide OpenBlank;
    var s, n := base + t + ['\r', '\n'], |base| + |t|;
    var pair: set<nat> := {n, n + 1};
    forall i | i >= |base| ensures !OpenBlank(base, i) { NotBeyond(base, i); }
    assert OpenBlanks(s) == OpenBlanks(base) + pair && |pair| == 2;
    assert OpenBlanks(base) !! pair;
  }

  lemma LineBreaks(base: string, t: string)
    requires t != []
    requires var s, n := base + t + ['\r', '\n'], |base| + |t|;
             forall i :: OpenBlank(s, i) <==> OpenBlank(base, i) || i == n || i == n + 1
    requires forall i :: OpenBlank(base, i) ==> InBreak(base, i)
    ensures forall i :: OpenBlank(base + t + ['\r', '\n'], i) ==> InBreak(base + t + ['\r', '\n'], i)
  {
    hide OpenBlank;
    var s, n := base + t + ['\r', '\n'], |base| + |t|;
    NotBeyond(base, n - 1);
    assert s[n] == '\r' && s[n + 1] == '\n';
    forall i | OpenBlank(s, i) ensures InBreak(s, i) {
      if OpenBlank(base, i) {
        assert InBreak(base, i);
        assert forall k :: 0 <= k < |base| ==> s[k] == base[k];
      }
    }
  }

  /** The tokens of a file, one for each argument. */
  ghost function FileTokens(contents: string): seq<string> {
    TokensOf(AllPieces(ScanFrom(BLANK, contents)))
  }

  lemma FileLayout(contents: string)
    requires Rewrapped(contents).Some?
    ensures AreTokens(FileTokens(contents)) && Rewrapped(contents).value == Lines(FileTokens(contents))
    ensures Arguments(contents, WHITESPACE) == Decoded(FileTokens(contents))
  {
    hide Arguments, Flat, Lines, Decoded, IsToken;
    var sc := ScanFrom(BLANK, contents);
    ScanIsLayout(contents);
    LayoutArguments(AllPieces(sc), if sc.current == [] then sc.gap else []);
    TokensAreTokens(AllPieces(sc));
  }

  /** Every blank of a rewrapped file outside quotes belongs to a line end directly after a token, and there is
      one line end for each argument. */
  lemma OnlyLineEnds(contents: string)
    requires Rewrapped(contents).Some?
    ensures var s := Rewrapped(contents).value;
            && (forall i :: OpenBlank(s, i) ==> InBreak(s, i))
            && |OpenBlanks(s)| == 2 * |Arguments(contents, WHITESPACE)|
  {
    hide Rewrapped, FileTokens, Arguments, Lines, OpenBlank, InBreak, OpenBlanks;
    FileLayout(contents);
    LinesBlanks(FileTokens(contents));
  }

  // ----- Physical lines -----

  predicate HasBreak(s: string) {
    exists i :: 0 <= i < |s| && (s[i] == '\r' || s[i] == '\n')
  }

  function LineWidth(s: string): (n: nat)
    ensures n <= |s| && !HasBreak(s[..n]) && (n < |s| ==> s[n] == '\r' || s[n] == '\n')
  {
    if s == [] || s[0] == '\r' || s[0] == '\n' then 0
    else
      var n := LineWidth(s[1..]);
      assert forall i :: 1 <= i < n + 1 ==> s[i] == s[1..][..n][i - 1];
      n + 1
  }

  /** The lines of a text file: a carriage return and line feed end a line together, or either does alone. */
  function PhysicalLines(s: string): seq<string>
    decreases |s|
  {
    if s == [] then []
    else
      var n := LineWidth(s);
      if n == |s| then [s]
      else if s[n] == '\r' && n + 1 < |s| && s[n + 1] == '\n' then [s[..n]] + PhysicalLines(s[n + 2..])
      else [s[..n]] + PhysicalLines(s[n + 1..])
  }

  lemma FirstLine(t: string, rest: string)
    requires !HasBreak(t)
    ensures PhysicalLines(t + ['\r', '\n'] + rest) == [t] + PhysicalLines(rest)
  {
    hide LineWidth;
    var s := t + ['\r', '\n'] + rest;
    var n := LineWidth(s);
    assert s[|t|] == '\r' && s[|t| + 1] == '\n';
    assert forall i :: 0 <= i < |t| ==> s[i] == t[i];
    assert n == |t|;
    assert s[..n] == t && s[n + 2..] == rest;
  }

  lemma {:induction false} LinesFront(tokens: seq<string>)
    requires tokens != []
    ensures Lines(tokens) == tokens[0] + ['\r', '\n'] + Lines(tokens[1..])
  {
    var n := |tokens| - 1;
    if n == 0 {
      assert tokens[..0] == [] && tokens[1..] == [];
    } else {
      var init, tail := tokens[..n], tokens[1..];
      LinesFront(init);
      assert init[1..] == tail[..n - 1] && tail[n - 1] == tokens[n];
      Reassociate(tokens[0] + ['\r', '\n'], Lines(init[1..]), tokens[n], LINE_END);
    }
  }

  lemma Reassociate(a: string, b: string, c: string, d: string)
    ensures (a + b) + c + d == a + (b + c + d)
  {}

  lemma {:induction false} LinesSplit(tokens: seq<string>)
    requires forall i :: 0 <= i < |tokens| ==> !HasBreak(tokens[i])
    ensures PhysicalLines(Lines(tokens)) == tokens
  {
    hide HasBreak, Lines, PhysicalLines;
    if tokens == [] {
      NoLines();
    } else {
      LinesFront(tokens);
      FirstLine(tokens[0], Lines(tokens[1..]));
      LinesSplit(tokens[1..]);
    }
  }

  lemma NoLines()
    ensures PhysicalLines(Lines([])) == []
  {}

  // ----- Lines that a token breaks -----

  /** A token takes one line, and more if it contains a line break. */
  lemma {:induction false} TokenLines(t: string, rest: string)
    ensures |PhysicalLines(t + ['\r', '\n'] + rest)| >= |PhysicalLines(rest)| + if HasBreak(t) then 2 else 1
    decreases |t|
  {
    hide HasBreak, LineWidth;
    if !HasBreak(t) {
      FirstLine(t, rest);
    } else {
      var s := t + ['\r', '\n'] + rest;
      var n := LineWidth(s);
      BreakWithin(t, s);
      var m := if s[n] == '\r' && s[n + 1] == '\n' then n + 2 else n + 1;
      assert s[|t|] == '\r' && m <= |t|;
      assert s[m..] == t[m..] + ['\r', '\n'] + rest;
      TokenLines(t[m..], rest);
    }
  }

  lemma BreakWithin(t: string, s: string)
    requires HasBreak(t) && t <= s
    ensures LineWidth(s) < |t|
  {
    hide LineWidth;
    var i :| 0 <= i < |t| && (t[i] == '\r' || t[i] == '\n');
    assert s[i] == t[i];
    assert forall j :: 0 <= j < LineWidth(s) ==> s[..LineWidth(s)][j] == s[j];
  }

  ghost predicate AnyBreak(tokens: seq<string>) {
    exists i :: 0 <= i < |tokens| && HasBreak(tokens[i])
  }

  lemma {:induction false} LineCount(tokens: seq<string>)
    ensures |PhysicalLines(Lines(tokens))| >= |tokens| + if AnyBreak(tokens) then 1 else 0
  {
    hide HasBreak, Lines, PhysicalLines;
    if tokens == [] {
      NoLines();
    } else {
      var tail := tokens[1..];
      LinesFront(tokens);
      TokenLines(tokens[0], Lines(tail));
      LineCount(tail);
      if AnyBreak(tokens) && !HasBreak(tokens[0]) {
        var i :| 0 <= i < |tokens| && HasBreak(tokens[i]);
        assert tokens[i] == tail[i - 1];
      }
    }
  }

  /** A carriage return or line feed stands inside quotes at `i`. */
  ghost predicate QuotedBreak(s: string, i: nat) {
    i < |s| && (s[i] == '\r' || s[i] == '\n') && |Delimiters(s, i)| % 2 == 1
  }

  ghost predicate Broken(sc: Scan) {
    HasBreak(sc.current) || exists i :: 0 <= i < |sc.pieces| && HasBreak(sc.pieces[i].token)
  }

  lemma GrowBreak(t: string, c: char)
    ensures HasBreak(t + [c]) <==> HasBreak(t) || c == '\r' || c == '\n'
  {
    var longer := t + [c];
    assert longer[|t|] == c && forall i :: 0 <= i < |t| ==> longer[i] == t[i];
  }

  lemma NextBroken(sc: Scan, c: char)
    ensures Broken(Next(sc, c)) <==> Broken(sc) || ((c == '\r' || c == '\n') && sc.lex.quoted)
  {
    var next := Next(sc, c);
    GrowBreak(sc.current, c);
    if |next.pieces| > |sc.pieces| {
      assert next.pieces[|sc.pieces|].token == sc.current;
      assert forall i :: 0 <= i < |sc.pieces| ==> next.pieces[i] == sc.pieces[i];
    }
  }

  /** A token contains a line break exactly if one stood inside quotes. */
  lemma {:induction false} BrokenIff(s: string, k: nat)
    requires k <= |s|
    ensures Broken(ScanFrom(BLANK, s[..k])) <==> exists i :: 0 <= i < k && QuotedBreak(s, i)
  {
    hide Delimiters, Final, Broken, Next;
    if k == 0 {
      NotBroken();
      assert s[..0] == [];
    } else {
      var n := k - 1;
      BrokenIff(s, n);
      assert s[..k][..n] == s[..n] && s[..k][n] == s[n];
      ScanIsOk(s[..n]);
      QuotedIsParity(s, n);
      var sc := ScanFrom(BLANK, s[..n]);
      assert sc.lex == Final(START, s[..n]);
      NextBroken(sc, s[n]);
      assert ScanFrom(BLANK, s[..k]) == Next(sc, s[n]);
      assert QuotedBreak(s, n) <==> (s[n] == '\r' || s[n] == '\n') && sc.lex.quoted;
    }
  }

  lemma NotBroken()
    ensures !Broken(BLANK)
  {}

  lemma PiecesBreak(contents: string)
    ensures AnyBreak(FileTokens(contents)) <==> Broken(ScanFrom(BLANK, contents))
  {
    hide HasBreak, ScanFrom;
    var sc := ScanFrom(BLANK, contents);
    var tokens := FileTokens(contents);
    assert forall i :: 0 <= i < |sc.pieces| ==> tokens[i] == sc.pieces[i].token;
    if sc.current == [] {
      assert !HasBreak([]) by { EmptyNoBreak(); }
    } else {
      assert tokens[|sc.pieces|] == sc.current;
    }
  }

  lemma EmptyNoBreak()
    ensures !HasBreak([])
  {}

  /** The physical lines read as the arguments, one each and in order. */
  ghost predicate OnePerLine(lines: seq<string>, arguments: seq<string>) {
    && |lines| == |arguments|
    && forall i :: 0 <= i < |lines| ==> Arguments(lines[i], WHITESPACE) == [arguments[i]]
  }

  /** The rewrapped file has one argument of the original on each physical line, in order, exactly if no line
      break stood inside quotes. */
  lemma OneLineEach(contents: string)
    requires Rewrapped(contents).Some?
    ensures OnePerLine(PhysicalLines(Rewrapped(contents).value), Arguments(contents, WHITESPACE)) <==>
            !exists i :: QuotedBreak(contents, i)
  {
    hide Rewrapped, Arguments, Lines, PhysicalLines, HasBreak, QuotedBreak, IsToken, ReadArgument, FileTokens, Broken;
    FileLayout(contents);
    var tokens := FileTokens(contents);
    BrokenIff(contents, |contents|);
    assert contents[..|contents|] == contents;
    PiecesBreak(contents);
    QuotedWithin(contents);
    if AnyBreak(tokens) {
      LineCount(tokens);
    } else {
      LinesSplit(tokens);
      forall i | 0 <= i < |tokens| ensures Arguments(tokens[i], WHITESPACE) == [Decoded(tokens)[i]] {
        TokenAlone(tokens[i]);
      }
    }
  }

  lemma QuotedWithin(s: string)
    ensures forall i: nat :: QuotedBreak(s, i) ==> i < |s|
  {}

  lemma QuotedBreakRewraps()
    ensures var contents := [QUOTE, '\n', QUOTE]; Rewrapped(contents) == Some(contents + ['\r', '\n'])
  {
    var contents := [QUOTE, '\n', QUOTE];
    assert contents[..2] == [QUOTE, '\n'] && contents[..2][..1] == [QUOTE] && [QUOTE][..0] == [];
    assert ScanFrom(BLANK, [QUOTE]) == Scan([], [], [QUOTE], Lex(true, false));
    assert ScanFrom(BLANK, [QUOTE, '\n']) == Scan([], [], [QUOTE, '\n'], Lex(true, false));
    assert ScanFrom(BLANK, contents) == Scan([], [], contents, START);
    var tokens := [contents];
    assert TokensOf([Piece([], contents)]) == tokens;
    assert tokens[..0] == [] && Lines(tokens) == contents + ['\r', '\n'];
  }

  /** A quoted line break breaks the promise. */
  lemma QuotedBreakSplits()
    ensures var contents := [QUOTE, '\n', QUOTE];
            && Rewrapped(contents) == Some(contents + ['\r', '\n'])
            && PhysicalLines(contents + ['\r', '\n']) == [[QUOTE], [QUOTE]]
  {
    hide Rewrapped;
    QuotedBreakRewraps();
    var text := [QUOTE, '\n', QUOTE] + ['\r', '\n'];
    FirstLine([QUOTE], []);
    assert text[2..] == [QUOTE] + ['\r', '\n'] + [] && text[..1] == [QUOTE];
    assert LineWidth(text) == 1;
  }

  lemma TokenAlone(t: string)
    requires IsToken(t)
    ensures Arguments(t, WHITESPACE) == [ReadArgument(t, false, WHITESPACE).text]
  {
    hide ReadArgument, IsToken;
    TokenFirst(t, []);
    assert t + [] == t;
  }
}
