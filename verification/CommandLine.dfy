/**
 Command lines as the Microsoft C runtime reads them ("Parsing C command-line arguments"):
 blanks separate arguments outside quotes, 2n backslashes before a quote stand for n and leave
 the quote a delimiter, 2n+1 stand for n and a literal quote, other backslashes are literal,
 and a doubled quote inside a quoted part is a literal quote.
 */
module CommandLine {

  const BACKSLASH := '\\'
  const QUOTE := '"'

  function Repeat(c: char, n: nat): (r: string)
    ensures |r| == n && forall i :: 0 <= i < n ==> r[i] == c
  {
    if n == 0 then [] else Repeat(c, n - 1) + [c]
  }

  /** The length of the leading run of backslashes. */
  function SlashRun(s: string): (n: nat)
    ensures n <= |s| && s[..n] == Repeat(BACKSLASH, n)
    ensures n < |s| ==> s[n] != BACKSLASH
  {
    if s == [] || s[0] != BACKSLASH then 0
    else
      var n := SlashRun(s[1..]) + 1;
      assert s[..n] == Repeat(BACKSLASH, n) by {
        assert forall i :: 1 <= i < n ==> s[i] == s[1..][..n - 1][i - 1];
      }
      n
  }

  lemma SlashRunOf(n: nat, rest: string)
    requires rest == [] || rest[0] != BACKSLASH
    ensures SlashRun(Repeat(BACKSLASH, n) + rest) == n
  {
    var s := Repeat(BACKSLASH, n) + rest;
    var m := SlashRun(s);
    assert forall i :: 0 <= i < n ==> s[i] == BACKSLASH;
    assert rest != [] ==> s[n] == rest[0];
    assert forall i :: 0 <= i < m ==> s[..m][i] == BACKSLASH;
    assert forall i :: 0 <= i < m ==> s[..m][i] == s[i];
    hide SlashRun;
  }

  datatype Argument = Argument(text: string, rest: string)

  function Prepend(p: string, a: Argument): Argument {
    Argument(p + a.text, a.rest)
  }

  /** Reads the current argument to its end; `rest` starts with the blank that ended it. */
  function ReadArgument(s: string, quoted: bool, blanks: set<char>): (a: Argument)
    ensures |a.rest| <= |s|
    decreases |s|
  {
    var n := SlashRun(s);
    if s == [] then Argument([], [])
    else if n > 0 then
      if n < |s| && s[n] == QUOTE then
        if n % 2 == 1 then Prepend(Repeat(BACKSLASH, n / 2) + [QUOTE], ReadArgument(s[n + 1..], quoted, blanks))
        else Prepend(Repeat(BACKSLASH, n / 2), ReadArgument(s[n..], quoted, blanks))
      else Prepend(s[..n], ReadArgument(s[n..], quoted, blanks))
    else if s[0] == QUOTE then
      if quoted && |s| > 1 && s[1] == QUOTE then Prepend([QUOTE], ReadArgument(s[2..], quoted, blanks))
      else ReadArgument(s[1..], !quoted, blanks)
    else if !quoted && s[0] in blanks then Argument([], s)
    else Prepend([s[0]], ReadArgument(s[1..], quoted, blanks))
  }

  /** An argument that does not start on a blank consumes something. */
  lemma ReadConsumes(s: string, quoted: bool, blanks: set<char>)
    requires s != [] && s[0] !in blanks
    ensures |ReadArgument(s, quoted, blanks).rest| < |s|
  {}

  /** The arguments of a command line, or of a response file with its own set of blanks. */
  function Arguments(s: string, blanks: set<char>): seq<string>
    decreases |s|
  {
    if s == [] then []
    else if s[0] in blanks then Arguments(s[1..], blanks)
    else
      ReadConsumes(s, false, blanks);
      var a := ReadArgument(s, false, blanks);
      [a.text] + Arguments(a.rest, blanks)
  }

  // ----- One step of reading at a time -----

  lemma ReadEscapedQuote(n: nat, tail: string, quoted: bool, blanks: set<char>)
    ensures ReadArgument(Repeat(BACKSLASH, 2 * n + 1) + ([QUOTE] + tail), quoted, blanks) ==
            Prepend(Repeat(BACKSLASH, n) + [QUOTE], ReadArgument(tail, quoted, blanks))
  {
    var s := Repeat(BACKSLASH, 2 * n + 1) + ([QUOTE] + tail);
    SlashRunOf(2 * n + 1, [QUOTE] + tail);
    hide SlashRun, Repeat;
    assert s[2 * n + 2..] == tail && (2 * n + 1) / 2 == n;
  }

  lemma ReadPairs(n: nat, tail: string, quoted: bool, blanks: set<char>)
    ensures ReadArgument(Repeat(BACKSLASH, 2 * n) + ([QUOTE] + tail), quoted, blanks) ==
            Prepend(Repeat(BACKSLASH, n), ReadArgument([QUOTE] + tail, quoted, blanks))
  {
    var s := Repeat(BACKSLASH, 2 * n) + ([QUOTE] + tail);
    SlashRunOf(2 * n, [QUOTE] + tail);
    assert Repeat(BACKSLASH, 0) == [];
    hide SlashRun, Repeat;
    assert s[2 * n..] == [QUOTE] + tail;
    if n == 0 {
      hide ReadArgument;
      var a := ReadArgument([QUOTE] + tail, quoted, blanks);
      assert s == [QUOTE] + tail && [] + a.text == a.text;
    } else {
      assert (2 * n) % 2 == 0 && (2 * n) / 2 == n;
    }
  }

  lemma ReadSlashes(n: nat, tail: string, quoted: bool, blanks: set<char>)
    requires tail == [] || (tail[0] != BACKSLASH && tail[0] != QUOTE)
    ensures ReadArgument(Repeat(BACKSLASH, n) + tail, quoted, blanks) ==
            Prepend(Repeat(BACKSLASH, n), ReadArgument(tail, quoted, blanks))
  {
    var s := Repeat(BACKSLASH, n) + tail;
    SlashRunOf(n, tail);
    assert Repeat(BACKSLASH, 0) == [];
    hide SlashRun, Repeat;
    assert s[n..] == tail && s[..n] == Repeat(BACKSLASH, n);
    if n == 0 {
      hide ReadArgument;
      var a := ReadArgument(tail, quoted, blanks);
      assert s == tail && [] + a.text == a.text;
    }
  }

  lemma ReadPlain(c: char, tail: string, quoted: bool, blanks: set<char>)
    requires c != BACKSLASH && c != QUOTE && (quoted || c !in blanks)
    ensures ReadArgument([c] + tail, quoted, blanks) == Prepend([c], ReadArgument(tail, quoted, blanks))
  {
    var s := [c] + tail;
    assert SlashRun(s) == 0 && s[1..] == tail;
    hide SlashRun;
  }

  lemma ReadDelimiter(tail: string, quoted: bool, blanks: set<char>)
    requires quoted && tail != [] ==> tail[0] != QUOTE
    ensures ReadArgument([QUOTE] + tail, quoted, blanks) == ReadArgument(tail, !quoted, blanks)
  {
    var s := [QUOTE] + tail;
    assert SlashRun(s) == 0 && s[1..] == tail;
    hide SlashRun;
  }

  lemma ReadDoubledQuote(tail: string, blanks: set<char>)
    ensures ReadArgument([QUOTE, QUOTE] + tail, true, blanks) == Prepend([QUOTE], ReadArgument(tail, true, blanks))
  {
    var s := [QUOTE, QUOTE] + tail;
    assert SlashRun(s) == 0 && s[2..] == tail;
    hide SlashRun;
  }

  lemma ReadEnd(rest: string, blanks: set<char>)
    requires BACKSLASH !in blanks && QUOTE !in blanks
    requires rest == [] || rest[0] in blanks
    ensures ReadArgument(rest, false, blanks) == Argument([], rest)
  {
    assert rest != [] ==> SlashRun(rest) == 0;
    hide SlashRun;
  }
}
