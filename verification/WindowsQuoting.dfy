/** Quoting one argument for a child process, and the whole command line read back. */
module WindowsQuoting {
  import opened CommandLine

  /** Backslashes before a quote, and before the closing delimiter, are doubled. */
  function QuotedBody(argument: string): string
    decreases |argument|
  {
    var n := SlashRun(argument);
    if n == |argument| then Repeat(BACKSLASH, 2 * n)
    else if argument[n] == QUOTE then Repeat(BACKSLASH, 2 * n) + [BACKSLASH, QUOTE] + QuotedBody(argument[n + 1..])
    else Repeat(BACKSLASH, n) + [argument[n]] + QuotedBody(argument[n + 1..])
  }

  function Quoted(argument: string): string {
    [QUOTE] + QuotedBody(argument) + [QUOTE]
  }

  lemma {:induction false} QuotedLength(argument: string)
    ensures |QuotedBody(argument)| <= 2 * |argument|
    decreases |argument|
  {
    var n := SlashRun(argument);
    if n < |argument| { QuotedLength(argument[n + 1..]); }
  }

  /** The pointed-to character: the terminator follows the argument. */
  function At(argument: string, i: nat): char
    requires i <= |argument|
  {
    if i < |argument| then argument[i] else '\0'
  }

  datatype Allocation = Failed | Allocated(buffer: array<char>, used: nat)

  /**
   Writes the quoted argument and its terminator into a fresh buffer. The entry guard keeps the
   allocation size representable, and the loops stay inside the buffer of 2 * length + 3 units.
   */
  method QuoteArgument(argument: string, sizeMax: nat, unitSize: nat, memory: bool) returns (r: Allocation)
    requires '\0' !in argument
    requires unitSize > 0 && sizeMax / unitSize >= 3
    ensures r.Failed? <==> |argument| > (sizeMax / unitSize - 3) / 2 || !memory
    ensures r.Allocated? ==>
              && fresh(r.buffer) && r.buffer.Length == 2 * |argument| + 3
              && (2 * |argument| + 3) * unitSize <= sizeMax
              && r.used <= r.buffer.Length && r.buffer[..r.used] == Quoted(argument) + ['\0']
  {
    var length := |argument|;
    if length > (sizeMax / unitSize - 3) / 2 {
      return Failed;
    }
    AllocationFits(length, sizeMax, unitSize);
    if !memory {
      return Failed;
    }
    hide QuotedBody;
    var quoted := new char[length * 2 + 3];
    var output := WriteBody(quoted, argument);
    output := WriteEnd(quoted, output);
    r := Allocated(quoted, output);
  }

  /** The opening quote and the escaped argument. */
  method WriteBody(quoted: array<char>, argument: string) returns (output: nat)
    requires '\0' !in argument && quoted.Length == 2 * |argument| + 3
    modifies quoted
    ensures output <= 1 + 2 * |argument| && quoted[..output] == [QUOTE] + QuotedBody(argument)
  {
    hide QuotedBody, Repeat, SlashRun, Escaped;
    output := 0;
    quoted[output] := QUOTE;
    output := output + 1;
    var input := 0;
    assert argument[0..] == argument && quoted[..output] == [QUOTE];
    while true
      invariant 0 <= input <= |argument| && 0 < output <= 1 + 2 * input
      invariant quoted[..output] + QuotedBody(argument[input..]) == [QUOTE] + QuotedBody(argument)
      decreases |argument| - input
    {
      ghost var written, here := quoted[..output], input;
      var backslashes := 0;
      backslashes, input := CountSlashes(argument, input);
      BodyStep(argument, here, backslashes);
      if At(argument, input) == QUOTE || At(argument, input) == '\0' {
        backslashes := backslashes * 2;
      }
      output := WriteSlashes(quoted, output, backslashes);
      if At(argument, input) == '\0' {
        break;
      }
      output := WriteEscaped(quoted, output, At(argument, input));
      Regroup(written, Repeat(BACKSLASH, backslashes), Escaped(argument[input]), QuotedBody(argument[input + 1..]));
      input := input + 1;
    }
  }

  method WriteEnd(quoted: array<char>, start: nat) returns (output: nat)
    requires start + 2 <= quoted.Length
    modifies quoted
    ensures output == start + 2 && quoted[..output] == old(quoted[..start]) + [QUOTE] + ['\0']
  {
    output := start;
    quoted[output] := QUOTE;
    output := output + 1;
    quoted[output] := '\0';
    output := output + 1;
  }

  method WriteEscaped(quoted: array<char>, start: nat, c: char) returns (output: nat)
    requires start + |Escaped(c)| <= quoted.Length
    modifies quoted
    ensures output == start + |Escaped(c)| && quoted[..output] == old(quoted[..start]) + Escaped(c)
  {
    output := start;
    if c == QUOTE {
      quoted[output] := BACKSLASH;
      output := output + 1;
    }
    quoted[output] := c;
    output := output + 1;
  }

  /** A quote takes an escaping backslash of its own. */
  function Escaped(c: char): (r: string)
    ensures |r| == if c == QUOTE then 2 else 1
  {
    if c == QUOTE then [BACKSLASH, c] else [c]
  }

  method CountSlashes(argument: string, start: nat) returns (n: nat, input: nat)
    requires start <= |argument| && '\0' !in argument
    ensures n == SlashRun(argument[start..]) && input == start + n
    ensures input <= |argument| && (At(argument, input) == '\0' <==> input == |argument|)
  {
    n, input := 0, start;
    ghost var rest := argument[start..];
    while At(argument, input) == BACKSLASH
      invariant input == start + n <= |argument|
      invariant forall i :: 0 <= i < n ==> rest[i] == BACKSLASH
      decreases |argument| - input
    {
      assert rest[n] == argument[input];
      n := n + 1;
      input := input + 1;
    }
    assert rest == Repeat(BACKSLASH, n) + rest[n..];
    assert rest[n..] != [] ==> rest[n..][0] == argument[input];
    SlashRunOf(n, rest[n..]);
  }

  method WriteSlashes(quoted: array<char>, start: nat, count: nat) returns (output: nat)
    requires start + count <= quoted.Length
    modifies quoted
    ensures output == start + count && quoted[..output] == old(quoted[..start]) + Repeat(BACKSLASH, count)
  {
    output := start;
    var backslashes := count;
    while backslashes > 0
      invariant 0 <= backslashes <= count && output == start + (count - backslashes)
      invariant quoted[..output] == old(quoted[..start]) + Repeat(BACKSLASH, count - backslashes)
      decreases backslashes
    {
      ghost var before := quoted[..output];
      quoted[output] := BACKSLASH;
      output := output + 1;
      backslashes := backslashes - 1;
      assert quoted[..output] == before + [BACKSLASH];
    }
  }

  /** The quoted body in one turn of the loop: a run of backslashes and what follows it. */
  lemma BodyStep(argument: string, here: nat, n: nat)
    requires here <= |argument| && n == SlashRun(argument[here..]) && here + n <= |argument|
    ensures here + n == |argument| ==> QuotedBody(argument[here..]) == Repeat(BACKSLASH, 2 * n)
    ensures here + n < |argument| ==>
              QuotedBody(argument[here..]) ==
              Repeat(BACKSLASH, if argument[here + n] == QUOTE then 2 * n else n) + Escaped(argument[here + n]) +
              QuotedBody(argument[here + n + 1..])
  {
    hide SlashRun, Repeat;
    var rest := argument[here..];
    if here + n < |argument| {
      assert rest[n] == argument[here + n] && rest[n + 1..] == argument[here + n + 1..];
    }
  }

  lemma Regroup(a: string, b: string, c: string, d: string)
    ensures a + (b + c + d) == (a + b + c) + d
  {}

  lemma AllocationFits(length: nat, sizeMax: nat, unitSize: nat)
    requires unitSize > 0 && sizeMax / unitSize >= 3 && length <= (sizeMax / unitSize - 3) / 2
    ensures (2 * length + 3) * unitSize <= sizeMax
  {
    var q := sizeMax / unitSize;
    assert 2 * length + 3 <= q;
    assert (2 * length + 3) * unitSize <= q * unitSize;
  }

  // ----- Reading it back -----

  const BLANKS := {' ', '\t'}

  /** What follows an argument: nothing, or a separating blank. */
  predicate Separated(rest: string, blanks: set<char>) {
    BACKSLASH !in blanks && QUOTE !in blanks && (rest == [] || rest[0] in blanks)
  }

  lemma {:induction false} BodyReadsBack(argument: string, rest: string, blanks: set<char>)
    requires Separated(rest, blanks)
    ensures ReadArgument(QuotedBody(argument) + [QUOTE] + rest, true, blanks) == Argument(argument, rest)
    decreases |argument|
  {
    hide ReadArgument, QuotedBody, SlashRun, Repeat, Escaped;
    var n := SlashRun(argument);
    assert argument[0..] == argument;
    BodyStep(argument, 0, n);
    if n == |argument| {
      assert argument == argument[..n];
      ClosingReadsBack(n, rest, blanks);
    } else {
      BodyReadsBack(argument[n + 1..], rest, blanks);
      var c, tail := argument[n], QuotedBody(argument[n + 1..]) + [QUOTE] + rest;
      assert argument == Repeat(BACKSLASH, n) + [c] + argument[n + 1..];
      RunReadsBack(n, c, tail, blanks);
      var run := Repeat(BACKSLASH, if c == QUOTE then 2 * n else n) + Escaped(c);
      assert QuotedBody(argument) + [QUOTE] + rest == run + tail;
    }
  }

  lemma ClosingReadsBack(n: nat, rest: string, blanks: set<char>)
    requires Separated(rest, blanks)
    ensures ReadArgument(Repeat(BACKSLASH, 2 * n) + [QUOTE] + rest, true, blanks) ==
            Argument(Repeat(BACKSLASH, n), rest)
  {
    hide ReadArgument, Repeat;
    ReadPairs(n, rest, true, blanks);
    ReadDelimiter(rest, true, blanks);
    ReadEnd(rest, blanks);
    assert Repeat(BACKSLASH, 2 * n) + [QUOTE] + rest == Repeat(BACKSLASH, 2 * n) + ([QUOTE] + rest);
    assert Repeat(BACKSLASH, n) + [] == Repeat(BACKSLASH, n);
  }

  /** A run of backslashes with the character after it is read back as it was. */
  lemma RunReadsBack(n: nat, c: char, tail: string, blanks: set<char>)
    requires c != BACKSLASH
    ensures ReadArgument(Repeat(BACKSLASH, if c == QUOTE then 2 * n else n) + Escaped(c) + tail, true, blanks) ==
            Prepend(Repeat(BACKSLASH, n) + [c], ReadArgument(tail, true, blanks))
  {
    hide ReadArgument;
    if c == QUOTE {
      ReadEscapedQuote(n, tail, true, blanks);
      assert Repeat(BACKSLASH, 2 * n) + [BACKSLASH] == Repeat(BACKSLASH, 2 * n + 1);
      assert Repeat(BACKSLASH, 2 * n) + [BACKSLASH, QUOTE] + tail == Repeat(BACKSLASH, 2 * n + 1) + ([QUOTE] + tail);
    } else {
      hide Repeat;
      ReadSlashes(n, [c] + tail, true, blanks);
      ReadPlain(c, tail, true, blanks);
      assert Repeat(BACKSLASH, n) + [c] + tail == Repeat(BACKSLASH, n) + ([c] + tail);
      var a := ReadArgument(tail, true, blanks);
      assert Repeat(BACKSLASH, n) + ([c] + a.text) == Repeat(BACKSLASH, n) + [c] + a.text;
    }
  }

  /** The arguments after the program name, separated by single spaces as the spawn call joins them. */
  function CommandTail(arguments: seq<string>): string {
    if arguments == [] then [] else [' '] + Quoted(arguments[0]) + CommandTail(arguments[1..])
  }

  /** The child receives exactly the arguments that were passed on. */
  lemma {:induction false} CommandRoundTrip(arguments: seq<string>)
    ensures Arguments(CommandTail(arguments), BLANKS) == arguments
  {
    if arguments != [] {
      var tail := CommandTail(arguments[1..]);
      CommandRoundTrip(arguments[1..]);
      FirstArgument(arguments[0], tail);
      assert CommandTail(arguments) == [' '] + (Quoted(arguments[0]) + tail);
    }
  }

  lemma FirstArgument(argument: string, tail: string)
    requires Separated(tail, BLANKS)
    ensures Arguments([' '] + (Quoted(argument) + tail), BLANKS) == [argument] + Arguments(tail, BLANKS)
  {
    hide ReadArgument, QuotedBody;
    var q := Quoted(argument) + tail;
    var inside := QuotedBody(argument) + [QUOTE] + tail;
    BodyReadsBack(argument, tail, BLANKS);
    ReadDelimiter(inside, false, BLANKS);
    assert q == [QUOTE] + inside && q[0] == QUOTE;
    assert ([' '] + q)[1..] == q;
  }
}
