/** Rewrapping a linker response file to one argument per line. */
module ResponseFile {
  import opened Optional
  import opened CommandLine
  import opened WindowsQuoting

  const WHITESPACE: set<char> := {' ', '\t', '\r', '\n', '\U{0B}', '\U{0C}'}
  const LINE_END: string := ['\r', '\n']

  // ----- The scanner -----

  /** Inside quotes or not, and whether an odd run of backslashes precedes. */
  datatype Lex = Lex(quoted: bool, odd: bool)

  const START := Lex(false, false)

  function Step(st: Lex, c: char): Lex {
    if c == BACKSLASH then Lex(st.quoted, !st.odd)
    else if c == QUOTE && !st.odd then Lex(!st.quoted, false)
    else Lex(st.quoted, false)
  }

  function Final(st: Lex, s: string): Lex {
    if s == [] then st else Step(Final(st, s[..|s| - 1]), s[|s| - 1])
  }

  /** The number of backslashes directly before position `i`. */
  function SlashesBefore(s: string, i: nat): nat
    requires i <= |s|
  {
    if i == 0 || s[i - 1] != BACKSLASH then 0 else 1 + SlashesBefore(s, i - 1)
  }

  /** The quotes before `k` that are not escaped. */
  function Delimiters(s: string, k: nat): set<nat>
    requires k <= |s|
  {
    set i: nat | i < k && s[i] == QUOTE && SlashesBefore(s, i) % 2 == 0
  }

  lemma DelimitersStep(s: string, n: nat)
    requires n < |s|
    ensures |Delimiters(s, n + 1)| ==
            |Delimiters(s, n)| + if s[n] == QUOTE && SlashesBefore(s, n) % 2 == 0 then 1 else 0
  {
    hide SlashesBefore;
    var here: set<nat> := if s[n] == QUOTE && SlashesBefore(s, n) % 2 == 0 then {n} else {};
    assert Delimiters(s, n + 1) == Delimiters(s, n) + here;
  }

  lemma NoDelimiters(s: string)
    ensures Delimiters(s, 0) == {}
  {}

  /** The scanner is inside quotes exactly after an odd number of unescaped quotes. */
  lemma {:induction false} QuotedIsParity(s: string, k: nat)
    requires k <= |s|
    ensures Final(START, s[..k]) == Lex(|Delimiters(s, k)| % 2 == 1, SlashesBefore(s, k) % 2 == 1)
  {
    hide Delimiters;
    if k == 0 {
      NoDelimiters(s);
    } else {
      var n := k - 1;
      QuotedIsParity(s, n);
      assert s[..k][..n] == s[..n];
      DelimitersStep(s, n);
    }
  }

  /** The state after `t`, if no blank outside quotes cuts it. */
  function Through(st: Lex, t: string): Option<Lex>
    decreases |t|
  {
    if t == [] then Some(st)
    else if !st.quoted && t[0] in WHITESPACE then None
    else Through(Step(st, t[0]), t[1..])
  }

  predicate IsToken(t: string) {
    t != [] && Through(START, t).Some? && !Through(START, t).value.quoted
  }

  lemma {:induction false} ThroughConcat(st: Lex, a: string, b: string)
    ensures Through(st, a + b) ==
            match Through(st, a) { case None => None case Some(mid) => Through(mid, b) }
    decreases |a|
  {
    if a == [] {
      assert a + b == b;
    } else {
      assert (a + b)[0] == a[0] && (a + b)[1..] == a[1..] + b;
      if st.quoted || a[0] !in WHITESPACE { ThroughConcat(Step(st, a[0]), a[1..], b); }
    }
  }

  lemma ThroughOne(st: Lex, c: char)
    ensures Through(st, [c]) == if !st.quoted && c in WHITESPACE then None else Some(Step(st, c))
  {
    assert [c][1..] == [];
  }

  lemma {:induction false} ThroughSlashes(st: Lex, n: nat)
    ensures Through(st, Repeat(BACKSLASH, n)) == Some(Lex(st.quoted, if n % 2 == 0 then st.odd else !st.odd))
  {
    if n > 0 {
      ThroughSlashes(st, n - 1);
      ThroughConcat(st, Repeat(BACKSLASH, n - 1), [BACKSLASH]);
      ThroughOne(Lex(st.quoted, if (n - 1) % 2 == 0 then st.odd else !st.odd), BACKSLASH);
    }
  }

  // ----- A scanned token read as one argument -----

  /** Reading a token stops at its end, whatever blank follows. */
  lemma {:induction false} TokenReads(t: string, quoted: bool, rest: string)
    requires Through(Lex(quoted, false), t).Some? && !Through(Lex(quoted, false), t).value.quoted
    requires rest == [] || rest[0] in WHITESPACE
    ensures ReadArgument(t + rest, quoted, WHITESPACE) == Argument(ReadArgument(t, quoted, WHITESPACE).text, rest)
    decreases |t|
  {
    hide ReadArgument;
    var n := SlashRun(t);
    if t == [] {
      assert t + rest == rest;
      ReadEnd(rest, WHITESPACE);
      ReadEnd([], WHITESPACE);
    } else if n > 0 {
      RunReads(t, n, quoted, rest);
    } else if t[0] == QUOTE {
      QuoteReads(t, quoted, rest);
    } else {
      assert Through(Step(Lex(quoted, false), t[0]), t[1..]).Some?;
      TokenReads(t[1..], quoted, rest);
      ReadPlain(t[0], t[1..], quoted, WHITESPACE);
      ReadPlain(t[0], t[1..] + rest, quoted, WHITESPACE);
      assert t == [t[0]] + t[1..] && t + rest == [t[0]] + (t[1..] + rest);
    }
  }

  lemma {:induction false} QuoteReads(t: string, quoted: bool, rest: string)
    requires t != [] && t[0] == QUOTE
    requires Through(Lex(quoted, false), t).Some? && !Through(Lex(quoted, false), t).value.quoted
    requires rest == [] || rest[0] in WHITESPACE
    ensures ReadArgument(t + rest, quoted, WHITESPACE) == Argument(ReadArgument(t, quoted, WHITESPACE).text, rest)
    decreases |t|, 0
  {
    hide ReadArgument;
    var tail := t[1..];
    assert t == [QUOTE] + tail && t + rest == [QUOTE] + (tail + rest);
    assert Through(Lex(!quoted, false), tail) == Through(Lex(quoted, false), t);
    if quoted && tail != [] && tail[0] == QUOTE {
      var after := tail[1..];
      assert Through(Lex(true, false), after) == Through(Lex(false, false), tail);
      assert t == [QUOTE, QUOTE] + after && t + rest == [QUOTE, QUOTE] + (after + rest);
      TokenReads(after, true, rest);
      ReadDoubledQuote(after, WHITESPACE);
      ReadDoubledQuote(after + rest, WHITESPACE);
    } else {
      TokenReads(tail, !quoted, rest);
      assert (tail + rest) != [] ==> (tail + rest)[0] == if tail == [] then rest[0] else tail[0];
      ReadDelimiter(tail, quoted, WHITESPACE);
      ReadDelimiter(tail + rest, quoted, WHITESPACE);
    }
  }

  lemma {:induction false} RunReads(t: string, n: nat, quoted: bool, rest: string)
    requires n == SlashRun(t) > 0
    requires Through(Lex(quoted, false), t).Some? && !Through(Lex(quoted, false), t).value.quoted
    requires rest == [] || rest[0] in WHITESPACE
    ensures ReadArgument(t + rest, quoted, WHITESPACE) == Argument(ReadArgument(t, quoted, WHITESPACE).text, rest)
    decreases |t|, 0
  {
    hide ReadArgument;
    var run, tail := Repeat(BACKSLASH, n), t[n..];
    assert t == run + tail && t + rest == run + (tail + rest);
    ThroughSlashes(Lex(quoted, false), n);
    ThroughConcat(Lex(quoted, false), run, tail);
    hide SlashRun;
    if tail != [] && tail[0] == QUOTE {
      var after := tail[1..];
      assert tail == [QUOTE] + after && tail + rest == [QUOTE] + (after + rest);
      if n % 2 == 1 {
        assert n == 2 * (n / 2) + 1;
        assert Through(Lex(quoted, true), tail) == Through(Lex(quoted, false), after);
        TokenReads(after, quoted, rest);
        ReadEscapedQuote(n / 2, after, quoted, WHITESPACE);
        ReadEscapedQuote(n / 2, after + rest, quoted, WHITESPACE);
      } else {
        assert n == 2 * (n / 2);
        TokenReads(tail, quoted, rest);
        ReadPairs(n / 2, after, quoted, WHITESPACE);
        ReadPairs(n / 2, after + rest, quoted, WHITESPACE);
      }
    } else {
      assert Through(Lex(quoted, n % 2 == 1), tail).Some?;
      ParityForgotten(quoted, n % 2 == 1, tail);
      TokenReads(tail, quoted, rest);
      ReadSlashes(n, tail, quoted, WHITESPACE);
      ReadSlashes(n, tail + rest, quoted, WHITESPACE);
    }
  }

  lemma ParityForgotten(quoted: bool, odd: bool, t: string)
    requires t == [] || (t[0] != BACKSLASH && t[0] != QUOTE)
    requires Through(Lex(quoted, odd), t).Some?
    ensures Through(Lex(quoted, false), t).Some?
    ensures Through(Lex(quoted, false), t).value.quoted == Through(Lex(quoted, odd), t).value.quoted
  {}

  // ----- Layouts -----

  predicate AllBlank(s: string) {
    forall i :: 0 <= i < |s| ==> s[i] in WHITESPACE
  }

  /** A blank gap and the token after it. */
  datatype Piece = Piece(gap: string, token: string)

  function Flat(pieces: seq<Piece>): string {
    if pieces == [] then []
    else Flat(pieces[..|pieces| - 1]) + pieces[|pieces| - 1].gap + pieces[|pieces| - 1].token
  }

  function TokensOf(pieces: seq<Piece>): seq<string> {
    seq(|pieces|, i requires 0 <= i < |pieces| => pieces[i].token)
  }

  /** Only the first gap may be empty. */
  ghost predicate IsLayout(pieces: seq<Piece>) {
    forall i :: 0 <= i < |pieces| ==>
      AllBlank(pieces[i].gap) && IsToken(pieces[i].token) && (i > 0 ==> pieces[i].gap != [])
  }

  lemma {:induction false} FlatSplit(pieces: seq<Piece>)
    requires pieces != []
    ensures Flat(pieces) == pieces[0].gap + pieces[0].token + Flat(pieces[1..])
  {
    hide Flat;
    var n := |pieces| - 1;
    var init, last := pieces[..n], pieces[n];
    assert pieces == init + [last];
    FlatAppend(init, last);
    EmptyFlat();
    if n == 0 {
      assert pieces[1..] == [] && Flat(init) + last.gap + last.token == last.gap + last.token + [];
    } else {
      FlatSplit(init);
      assert pieces[1..] == init[1..] + [last];
      FlatAppend(init[1..], last);
      Regrouped(pieces[0].gap + pieces[0].token, Flat(init[1..]), last);
    }
  }

  lemma FlatAppend(pieces: seq<Piece>, last: Piece)
    ensures Flat(pieces + [last]) == Flat(pieces) + last.gap + last.token
  {
    assert (pieces + [last])[..|pieces|] == pieces;
  }

  lemma Regrouped(front: string, middle: string, last: Piece)
    ensures (front + middle) + last.gap + last.token == front + (middle + last.gap + last.token)
  {}

  function Decoded(tokens: seq<string>): (r: seq<string>)
    ensures |r| == |tokens| && forall i :: 0 <= i < |r| ==> r[i] == ReadArgument(tokens[i], false, WHITESPACE).text
  {
    if tokens == [] then []
    else Decoded(tokens[..|tokens| - 1]) + [ReadArgument(tokens[|tokens| - 1], false, WHITESPACE).text]
  }

  lemma {:induction false} BlanksHaveNoArguments(gap: string, s: string)
    requires AllBlank(gap)
    ensures Arguments(gap + s, WHITESPACE) == Arguments(s, WHITESPACE)
  {
    if gap == [] {
      assert gap + s == s;
    } else {
      assert (gap + s)[1..] == gap[1..] + s;
      BlanksHaveNoArguments(gap[1..], s);
    }
  }

  /** The arguments of a laid out file are its tokens, decoded one by one. */
  lemma {:induction false} LayoutArguments(pieces: seq<Piece>, trail: string)
    requires IsLayout(pieces) && AllBlank(trail)
    ensures Arguments(Flat(pieces) + trail, WHITESPACE) == Decoded(TokensOf(pieces))
    decreases |pieces|
  {
    if pieces == [] {
      BlanksHaveNoArguments(trail, []);
      assert Flat(pieces) + trail == trail + [];
    } else {
      hide *;
      var first, rest := pieces[0], pieces[1..];
      RestLayout(pieces, trail);
      LayoutArguments(rest, trail);
      DecodedSplit(pieces);
      FirstPieceArguments(pieces, trail);
    }
  }

  lemma FirstPieceArguments(pieces: seq<Piece>, trail: string)
    requires pieces != [] && AllBlank(pieces[0].gap) && IsToken(pieces[0].token)
    requires var after := Flat(pieces[1..]) + trail; after == [] || after[0] in WHITESPACE
    ensures Arguments(Flat(pieces) + trail, WHITESPACE) ==
            [ReadArgument(pieces[0].token, false, WHITESPACE).text] + Arguments(Flat(pieces[1..]) + trail, WHITESPACE)
  {
    hide *;
    var first, after := pieces[0], Flat(pieces[1..]) + trail;
    FlatSplit(pieces);
    assert Flat(pieces) + trail == first.gap + (first.token + after);
    BlanksHaveNoArguments(first.gap, first.token + after);
    TokenFirst(first.token, after);
  }

  lemma DecodedSplit(pieces: seq<Piece>)
    requires pieces != []
    ensures Decoded(TokensOf(pieces)) ==
            [ReadArgument(pieces[0].token, false, WHITESPACE).text] + Decoded(TokensOf(pieces[1..]))
  {
    hide ReadArgument;
  }

  lemma RestLayout(pieces: seq<Piece>, trail: string)
    requires IsLayout(pieces) && pieces != [] && AllBlank(trail)
    ensures AllBlank(pieces[0].gap) && IsToken(pieces[0].token) && IsLayout(pieces[1..])
    ensures var after := Flat(pieces[1..]) + trail; after == [] || after[0] in WHITESPACE
  {
    var rest := pieces[1..];
    assert forall i :: 0 <= i < |rest| ==> rest[i] == pieces[i + 1];
    hide IsToken, Flat;
    if rest != [] {
      FlatSplit(rest);
      assert (Flat(rest) + trail)[0] == rest[0].gap[0];
    } else {
      EmptyFlat();
      assert Flat(rest) + trail == trail;
    }
  }

  lemma EmptyFlat()
    ensures Flat([]) == []
  {}

  lemma TokenFirst(t: string, after: string)
    requires IsToken(t) && (after == [] || after[0] in WHITESPACE)
    ensures Arguments(t + after, WHITESPACE) == [ReadArgument(t, false, WHITESPACE).text] + Arguments(after, WHITESPACE)
  {
    TokenReads(t, false, after);
    hide ReadArgument;
    assert (t + after)[0] == t[0] && t[0] !in WHITESPACE;
  }

  // ----- The scan of a file -----

  /** Finished pieces, the gap after them, and the token being read. */
  datatype Scan = Scan(pieces: seq<Piece>, gap: string, current: string, lex: Lex)

  function Next(sc: Scan, c: char): Scan {
    if c in WHITESPACE && !sc.lex.quoted then
      if sc.current == [] then sc.(gap := sc.gap + [c], lex := START)
      else Scan(sc.pieces + [Piece(sc.gap, sc.current)], [c], [], START)
    else sc.(current := sc.current + [c], lex := Step(sc.lex, c))
  }

  function ScanFrom(sc: Scan, s: string): Scan {
    if s == [] then sc else Next(ScanFrom(sc, s[..|s| - 1]), s[|s| - 1])
  }

  const BLANK := Scan([], [], [], START)

  function AllPieces(sc: Scan): seq<Piece> {
    if sc.current == [] then sc.pieces else sc.pieces + [Piece(sc.gap, sc.current)]
  }

  /** What a scan knows about the text it has read. */
  ghost predicate ScanOk(sc: Scan, s: string) {
    && s == Flat(sc.pieces) + sc.gap + sc.current
    && IsLayout(sc.pieces) && AllBlank(sc.gap) && (sc.pieces != [] ==> sc.gap != [])
    && Through(START, sc.current) == Some(sc.lex)
    && sc.lex == Final(START, s)
  }

  lemma NextOk(sc: Scan, s: string, c: char)
    requires ScanOk(sc, s)
    ensures ScanOk(Next(sc, c), s + [c])
  {
    hide Final, Flat, Through, IsLayout;
    FinalNext(s, c);
    if c in WHITESPACE && !sc.lex.quoted {
      assert Step(sc.lex, c) == START && Through(START, []) == Some(START) by { NoneThrough(); }
      if sc.current != [] {
        FinishPiece(sc, s);
      } else {
        assert Flat(sc.pieces) + (sc.gap + [c]) + [] == s + [c];
      }
    } else {
      ThroughConcat(START, sc.current, [c]);
      ThroughOne(sc.lex, c);
      assert Flat(sc.pieces) + sc.gap + (sc.current + [c]) == s + [c];
    }
  }

  lemma FinalNext(s: string, c: char)
    ensures Final(START, s + [c]) == Step(Final(START, s), c)
  {
    assert (s + [c])[..|s|] == s;
  }

  lemma NoneThrough()
    ensures Through(START, []) == Some(START)
  {}

  lemma FinishPiece(sc: Scan, s: string)
    requires ScanOk(sc, s) && sc.current != [] && !sc.lex.quoted
    ensures IsLayout(sc.pieces + [Piece(sc.gap, sc.current)]) && Flat(sc.pieces + [Piece(sc.gap, sc.current)]) == s
  {
    hide Final, Through;
    var all := sc.pieces + [Piece(sc.gap, sc.current)];
    assert all[..|sc.pieces|] == sc.pieces;
  }

  lemma EmptyScan()
    ensures ScanOk(BLANK, [])
  {}

  lemma {:induction false} ScanIsOk(s: string)
    ensures ScanOk(ScanFrom(BLANK, s), s)
  {
    hide Next, Step, Through, Final;
    if s == [] {
      EmptyScan();
    } else {
      ScanIsOk(s[..|s| - 1]);
      NextOk(ScanFrom(BLANK, s[..|s| - 1]), s[..|s| - 1], s[|s| - 1]);
      assert s[..|s| - 1] + [s[|s| - 1]] == s;
    }
  }

  // ----- Rewrapping -----

  function Lines(tokens: seq<string>): string {
    if tokens == [] then [] else Lines(tokens[..|tokens| - 1]) + tokens[|tokens| - 1] + LINE_END
  }

  /** The rewrapped file, or None for an unterminated quote. */
  function Rewrapped(contents: string): Option<string> {
    var sc := ScanFrom(BLANK, contents);
    if sc.lex.quoted then None else Some(Lines(TokensOf(AllPieces(sc))))
  }

  /** Tokens separated by line ends, without the last one. */
  function Joined(tokens: seq<string>): string {
    if tokens == [] then []
    else if |tokens| == 1 then tokens[0]
    else Joined(tokens[..|tokens| - 1]) + LINE_END + tokens[|tokens| - 1]
  }

  lemma {:induction false} JoinedIsLines(tokens: seq<string>)
    ensures tokens != [] ==> Joined(tokens) + LINE_END == Lines(tokens)
  {
    if |tokens| == 1 {
      assert Lines(tokens[..0]) == [];
    } else if |tokens| > 1 {
      JoinedIsLines(tokens[..|tokens| - 1]);
    }
  }

  /** The emitted bytes at any moment: the finished tokens and the current one, joined. */
  ghost predicate Emitted(sc: Scan, output: string, pending: bool) {
    && output == Joined(TokensOf(AllPieces(sc)))
    && (pending <==> sc.current == [] && sc.pieces != [])
    && (output == [] <==> AllPieces(sc) == [])
  }

  lemma EmitBlank(sc: Scan, s: string, output: string, pending: bool, c: char)
    requires ScanOk(sc, s) && Emitted(sc, output, pending) && c in WHITESPACE && !sc.lex.quoted
    ensures Emitted(Next(sc, c), output, output != [])
  {}

  lemma EmitChar(sc: Scan, s: string, output: string, pending: bool, c: char)
    requires ScanOk(sc, s) && Emitted(sc, output, pending) && !(c in WHITESPACE && !sc.lex.quoted)
    ensures Emitted(Next(sc, c), output + (if pending then LINE_END else []) + [c], false)
  {
    hide ScanOk, Joined, TokensOf;
    var before, sep := TokensOf(sc.pieces), if sc.pieces == [] then [] else LINE_END;
    NoTokens(sc.pieces);
    JoinedAppend(before, sc.current + [c]);
    TokensAppend(sc.pieces, Piece(sc.gap, sc.current + [c]));
    JoinedAppend(before, sc.current);
    TokensAppend(sc.pieces, Piece(sc.gap, sc.current));
    assert Joined(before) + sep + (sc.current + [c]) == (Joined(before) + sep + sc.current) + [c];
    assert sc.pieces == [] ==> Joined(before) + sep == Joined(before);
  }

  lemma NoTokens(pieces: seq<Piece>)
    ensures pieces == [] <==> TokensOf(pieces) == []
  {}

  lemma TokensAppend(pieces: seq<Piece>, piece: Piece)
    ensures TokensOf(pieces + [piece]) == TokensOf(pieces) + [piece.token]
  {
    assert |TokensOf(pieces + [piece])| == |TokensOf(pieces) + [piece.token]|;
  }

  lemma JoinedAppend(tokens: seq<string>, token: string)
    ensures Joined(tokens + [token]) == Joined(tokens) + (if tokens == [] then [] else LINE_END) + token
  {
    assert (tokens + [token])[..|tokens|] == tokens;
  }

  /** Rewraps a response file byte by byte. */
  method OneArgumentPerLine(contents: string) returns (r: Option<string>)
    ensures r == Rewrapped(contents)
    ensures r.None? <==> |Delimiters(contents, |contents|)| % 2 == 1
  {
    hide ScanOk, Emitted, Next;
    var output := "";
    var inQuotes, pendingSeparator := false, false;
    var precedingBackslashCount := 0;
    ghost var sc := BLANK;
    ScanIsOk([]);
    NothingEmitted();
    for k := 0 to |contents|
      invariant sc == ScanFrom(BLANK, contents[..k]) && ScanOk(sc, contents[..k])
      invariant Emitted(sc, output, pendingSeparator)
      invariant sc.lex == Lex(inQuotes, precedingBackslashCount % 2 == 1)
    {
      var value := contents[k];
      ghost var before := sc;
      assert contents[..k + 1] == contents[..k] + [value] && contents[..k + 1][..k] == contents[..k];
      NextOk(sc, contents[..k], value);
      NextLex(sc, value);
      sc := Next(sc, value);
      if value in WHITESPACE && !inQuotes {
        EmitBlank(before, contents[..k], output, pendingSeparator, value);
        pendingSeparator := output != [];
        precedingBackslashCount := 0;
        continue;
      }
      EmitChar(before, contents[..k], output, pendingSeparator, value);
      assert output + [] == output;
      if pendingSeparator {
        output := output + LINE_END;
        pendingSeparator := false;
      }
      output := output + [value];
      if value == BACKSLASH {
        precedingBackslashCount := precedingBackslashCount + 1;
      } else {
        if value == QUOTE && precedingBackslashCount % 2 == 0 {
          inQuotes := !inQuotes;
        }
        precedingBackslashCount := 0;
      }
    }
    assert contents[..|contents|] == contents;
    FinalLex(sc, contents);
    QuotedIsParity(contents, |contents|);
    if inQuotes {
      return None;
    }
    EmittedLines(sc, output, pendingSeparator);
    if output != [] {
      output := output + LINE_END;
    }
    return Some(output);
  }

  lemma NothingEmitted()
    ensures Emitted(BLANK, "", false)
  {}

  lemma NextLex(sc: Scan, c: char)
    ensures Next(sc, c).lex == if c in WHITESPACE && !sc.lex.quoted then START else Step(sc.lex, c)
  {}

  lemma FinalLex(sc: Scan, s: string)
    requires ScanOk(sc, s)
    ensures sc.lex == Final(START, s)
  {}

  lemma EmittedLines(sc: Scan, output: string, pending: bool)
    requires Emitted(sc, output, pending)
    ensures Lines(TokensOf(AllPieces(sc))) == output + (if output == [] then [] else LINE_END)
  {
    JoinedIsLines(TokensOf(AllPieces(sc)));
  }

  // ----- What rewrapping preserves -----

  /** The whole text is a layout: every piece found, then trailing blanks. */
  lemma ScanIsLayout(contents: string)
    requires !ScanFrom(BLANK, contents).lex.quoted
    ensures var sc := ScanFrom(BLANK, contents);
            var trail := if sc.current == [] then sc.gap else [];
            IsLayout(AllPieces(sc)) && AllBlank(trail) && contents == Flat(AllPieces(sc)) + trail
  {
    ScanIsOk(contents);
    var sc := ScanFrom(BLANK, contents);
    if sc.current != [] {
      FinishPiece(sc, contents);
      assert Flat(AllPieces(sc)) + [] == contents;
    } else {
      assert Flat(sc.pieces) + sc.gap + [] == Flat(sc.pieces) + sc.gap;
    }
  }

  function LinePieces(tokens: seq<string>): seq<Piece> {
    seq(|tokens|, i requires 0 <= i < |tokens| => Piece(if i == 0 then [] else LINE_END, tokens[i]))
  }

  lemma {:induction false} LinesLayout(tokens: seq<string>)
    requires tokens != []
    ensures Lines(tokens) == Flat(LinePieces(tokens)) + LINE_END
  {
    var init, last := tokens[..|tokens| - 1], tokens[|tokens| - 1];
    var pieces := LinePieces(tokens);
    assert pieces[..|pieces| - 1] == LinePieces(init);
    assert init == [] ==> LinePieces(init) == [];
    if |tokens| > 1 { LinesLayout(init); }
  }

  lemma LinesAreLayout(tokens: seq<string>)
    requires forall i :: 0 <= i < |tokens| ==> IsToken(tokens[i])
    ensures IsLayout(LinePieces(tokens)) && TokensOf(LinePieces(tokens)) == tokens
  {
    hide IsToken;
  }

  lemma TokensAreTokens(pieces: seq<Piece>)
    requires IsLayout(pieces)
    ensures forall i :: 0 <= i < |pieces| ==> IsToken(TokensOf(pieces)[i])
  {
    hide IsToken;
  }

  lemma LinesArguments(tokens: seq<string>)
    requires forall i :: 0 <= i < |tokens| ==> IsToken(tokens[i])
    ensures Arguments(Lines(tokens), WHITESPACE) == Decoded(tokens)
  {
    hide IsToken, ReadArgument;
    if tokens != [] {
      LinesAreLayout(tokens);
      LinesLayout(tokens);
      LayoutArguments(LinePieces(tokens), LINE_END);
    }
  }

  /** Every balanced response file keeps its argument sequence. */
  lemma RewrapKeepsArguments(contents: string)
    requires Rewrapped(contents).Some?
    ensures Arguments(Rewrapped(contents).value, WHITESPACE) == Arguments(contents, WHITESPACE)
  {
    hide Arguments, Flat, Lines, Decoded, IsToken;
    var sc := ScanFrom(BLANK, contents);
    var trail := if sc.current == [] then sc.gap else [];
    ScanIsLayout(contents);
    hide ScanFrom;
    LayoutArguments(AllPieces(sc), trail);
    TokensAreTokens(AllPieces(sc));
    LinesArguments(TokensOf(AllPieces(sc)));
  }

  lemma {:induction false} ScanConcat(sc: Scan, a: string, b: string)
    ensures ScanFrom(sc, a + b) == ScanFrom(ScanFrom(sc, a), b)
  {
    if b == [] {
      assert a + b == a;
    } else {
      ScanConcat(sc, a, b[..|b| - 1]);
      assert (a + b)[..|a + b| - 1] == a + b[..|b| - 1];
    }
  }

  lemma {:induction false} ScanGap(sc: Scan, gap: string)
    requires !sc.lex.quoted && AllBlank(gap)
    ensures var r := ScanFrom(sc, gap);
            && AllPieces(r) == AllPieces(sc) && !r.lex.quoted
            && if gap == [] then r == sc else r.current == [] && r.lex == START
  {
    if gap != [] { ScanGap(sc, gap[..|gap| - 1]); }
  }

  lemma {:induction false} ScanToken(sc: Scan, t: string)
    requires sc.current == [] && sc.lex == START && Through(START, t).Some?
    ensures ScanFrom(sc, t) == Scan(sc.pieces, sc.gap, t, Through(START, t).value)
  {
    if t != [] {
      var init, c := t[..|t| - 1], t[|t| - 1];
      assert t == init + [c];
      ThroughConcat(START, init, [c]);
      ScanToken(sc, init);
      ThroughOne(Through(START, init).value, c);
      hide Through;
    } else {
      assert Scan(sc.pieces, sc.gap, [], START) == sc;
    }
  }

  lemma NothingScanned()
    ensures ScanFrom(BLANK, Flat([])) == BLANK && TokensOf([]) == []
  {}

  /** Scanning a layout finds exactly its tokens. */
  lemma {:induction false} ScanLayout(pieces: seq<Piece>)
    requires IsLayout(pieces)
    ensures var sc := ScanFrom(BLANK, Flat(pieces));
            && TokensOf(AllPieces(sc)) == TokensOf(pieces) && !sc.lex.quoted
            && (pieces == [] ==> sc == BLANK)
  {
    hide ScanFrom, Flat, Through, TokensOf;
    if pieces == [] {
      NothingScanned();
    } else {
      var init, last := pieces[..|pieces| - 1], pieces[|pieces| - 1];
      assert pieces == init + [last];
      ScanLayout(init);
      var text := Flat(init);
      FlatAppend(init, last);
      TokensAppend(init, last);
      ScanConcat(BLANK, text + last.gap, last.token);
      ScanConcat(BLANK, text, last.gap);
      var before := ScanFrom(BLANK, text);
      ScanGap(before, last.gap);
      var middle := ScanFrom(before, last.gap);
      ScanToken(middle, last.token);
      AppendToken(middle, last.token, Through(START, last.token).value);
      assert TokensOf(AllPieces(middle)) == TokensOf(init);
    }
  }

  lemma AppendToken(sc: Scan, t: string, lex: Lex)
    requires sc.current == [] && t != []
    ensures TokensOf(AllPieces(Scan(sc.pieces, sc.gap, t, lex))) == TokensOf(AllPieces(sc)) + [t]
  {
    TokensAppend(sc.pieces, Piece(sc.gap, t));
  }

  /** Any blank-separated tokens rewrap to one line each. */
  lemma RewrapLayout(pieces: seq<Piece>, trail: string)
    requires IsLayout(pieces) && AllBlank(trail)
    ensures Rewrapped(Flat(pieces) + trail) == Some(Lines(TokensOf(pieces)))
  {
    ScanLayout(pieces);
    ScanConcat(BLANK, Flat(pieces), trail);
    ScanGap(ScanFrom(BLANK, Flat(pieces)), trail);
    hide ScanFrom, Flat, Lines, IsLayout;
  }

  lemma RewrapIdempotent(contents: string)
    requires Rewrapped(contents).Some?
    ensures Rewrapped(Rewrapped(contents).value) == Rewrapped(contents)
  {
    hide Flat, IsToken;
    var sc := ScanFrom(BLANK, contents);
    ScanIsLayout(contents);
    var tokens := TokensOf(AllPieces(sc));
    TokensAreTokens(AllPieces(sc));
    if tokens == [] {
      RewrapLayout([], []);
      EmptyFlat();
      assert Rewrapped(contents) == Some(Lines([])) && Lines([]) == [];
    } else {
      hide ScanFrom;
      LinesAreLayout(tokens);
      LinesLayout(tokens);
      RewrapLayout(LinePieces(tokens), LINE_END);
    }
  }

  // ----- Quoted arguments -----

  lemma {:induction false} QuotedBodyThrough(argument: string)
    ensures Through(Lex(true, false), QuotedBody(argument)) == Some(Lex(true, false))
    decreases |argument|
  {
    hide Through, QuotedBody, SlashRun, Repeat;
    var n, inside := SlashRun(argument), Lex(true, false);
    assert argument[0..] == argument;
    BodyStep(argument, 0, n);
    if n == |argument| {
      ThroughSlashes(inside, 2 * n);
    } else {
      var c := argument[n];
      QuotedBodyThrough(argument[n + 1..]);
      var run := Repeat(BACKSLASH, if c == QUOTE then 2 * n else n);
      ThroughSlashes(inside, |run|);
      var mid := Lex(true, |run| % 2 == 1);
      ThroughConcat(inside, run, Escaped(c));
      ThroughOne(mid, c);
      if c == QUOTE {
        assert [BACKSLASH, c] == [BACKSLASH] + [c];
        ThroughOne(inside, BACKSLASH);
        ThroughConcat(inside, [BACKSLASH], [c]);
        ThroughOne(Lex(true, true), c);
      }
      ThroughConcat(inside, run + Escaped(c), QuotedBody(argument[n + 1..]));
    }
  }

  /** Whatever the quoter produces is one token of a response file. */
  lemma QuotedIsToken(argument: string)
    ensures IsToken(Quoted(argument))
  {
    hide Through, QuotedBody;
    var body := QuotedBody(argument);
    QuotedBodyThrough(argument);
    ThroughOne(START, QUOTE);
    ThroughConcat(START, [QUOTE], body);
    ThroughOne(Lex(true, false), QUOTE);
    ThroughConcat(START, [QUOTE] + body, [QUOTE]);
  }

  lemma QuotedReadsBack(argument: string)
    ensures ReadArgument(Quoted(argument), false, WHITESPACE).text == argument
  {
    hide ReadArgument, QuotedBody;
    var inside := QuotedBody(argument) + [QUOTE];
    BodyReadsBack(argument, [], WHITESPACE);
    assert inside + [] == inside && Quoted(argument) == [QUOTE] + inside;
    ReadDelimiter(inside, false, WHITESPACE);
  }

  /** Quoted arguments laid out with any blanks survive rewrapping and are read back as they were. */
  lemma QuotedFileRoundTrip(arguments: seq<string>, pieces: seq<Piece>, trail: string)
    requires |pieces| == |arguments| && AllBlank(trail)
    requires forall i :: 0 <= i < |pieces| ==>
               AllBlank(pieces[i].gap) && (i > 0 ==> pieces[i].gap != []) && pieces[i].token == Quoted(arguments[i])
    ensures Rewrapped(Flat(pieces) + trail).Some?
    ensures Arguments(Rewrapped(Flat(pieces) + trail).value, WHITESPACE) == arguments
  {
    hide Flat, Arguments, ReadArgument, Quoted, IsToken, Rewrapped;
    forall i | 0 <= i < |pieces|
      ensures IsToken(pieces[i].token)
      ensures ReadArgument(pieces[i].token, false, WHITESPACE).text == arguments[i]
    {
      QuotedIsToken(arguments[i]);
      QuotedReadsBack(arguments[i]);
    }
    RewrapLayout(pieces, trail);
    RewrapKeepsArguments(Flat(pieces) + trail);
    LayoutArguments(pieces, trail);
    assert Decoded(TokensOf(pieces)) == arguments;
  }
}
