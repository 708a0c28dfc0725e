/** The text of a generated CMake lock: escaping, lines, and the patterns the parser accepts. */
module LockText {
  import opened Optional

  // ----- Escaping -----

  function ReplaceChar(s: string, c: char, with: string): string {
    if s == [] then [] else (if s[0] == c then with else [s[0]]) + ReplaceChar(s[1..], c, with)
  }

  /** `str.replace` of a two-character pattern: leftmost, non-overlapping. */
  function ReplacePair(s: string, a: char, b: char, with: char): string
    decreases |s|
  {
    if s == [] then []
    else if |s| >= 2 && s[0] == a && s[1] == b then [with] + ReplacePair(s[2..], a, b, with)
    else [s[0]] + ReplacePair(s[1..], a, b, with)
  }

  function Escape(v: string): string {
    ReplaceChar(ReplaceChar(v, '\\', "\\\\"), '"', "\\\"")
  }

  function Unescape(s: string): string {
    ReplacePair(ReplacePair(s, '\\', '"', '"'), '\\', '\\', '\\')
  }

  /** Both passes of escaping at once. */
  function EscapeEach(v: string): string {
    if v == [] then []
    else (if v[0] == '\\' then "\\\\" else if v[0] == '"' then "\\\"" else [v[0]]) + EscapeEach(v[1..])
  }

  lemma {:induction false} ReplaceCharConcat(a: string, b: string, c: char, with: string)
    ensures ReplaceChar(a + b, c, with) == ReplaceChar(a, c, with) + ReplaceChar(b, c, with)
  {
    if a == [] {
      assert a + b == b;
    } else {
      assert (a + b)[1..] == a[1..] + b;
      ReplaceCharConcat(a[1..], b, c, with);
    }
  }

  lemma {:induction false} EscapeIsEach(v: string)
    ensures Escape(v) == EscapeEach(v)
  {
    if v != [] {
      EscapeIsEach(v[1..]);
      var first := if v[0] == '\\' then "\\\\" else [v[0]];
      var rest := ReplaceChar(v[1..], '\\', "\\\\");
      ReplaceCharConcat(first, rest, '"', "\\\"");
      assert first[1..] == if v[0] == '\\' then "\\" else [];
      assert first[1..] != [] ==> first[1..][1..] == [];
      assert ReplaceChar(first, '"', "\\\"") == if v[0] == '"' then "\\\"" else first;
    }
  }

  lemma {:induction false} FirstPass(v: string)
    ensures ReplacePair(EscapeEach(v), '\\', '"', '"') == ReplaceChar(v, '\\', "\\\\")
  {
    if v != [] {
      var s, rest := EscapeEach(v), EscapeEach(v[1..]);
      FirstPass(v[1..]);
      assert rest != [] ==> rest[0] != '"';
      if v[0] == '\\' {
        assert s[1..] == "\\" + rest && s[1..][1..] == rest;
      } else if v[0] == '"' {
        assert s[2..] == rest;
      } else {
        assert s[1..] == rest;
      }
    }
  }

  lemma {:induction false} SecondPass(v: string)
    ensures ReplacePair(ReplaceChar(v, '\\', "\\\\"), '\\', '\\', '\\') == v
  {
    if v != [] {
      var s, rest := ReplaceChar(v, '\\', "\\\\"), ReplaceChar(v[1..], '\\', "\\\\");
      SecondPass(v[1..]);
      if v[0] == '\\' { assert s[2..] == rest; } else { assert s[1..] == rest; }
    }
  }

  /** The two replacement passes undo escaping for every value. */
  lemma UnescapeEscape(v: string)
    ensures Unescape(Escape(v)) == v
  {
    EscapeIsEach(v);
    FirstPass(v);
    SecondPass(v);
  }

  // ----- Lines -----

  /** The characters at which text is split into lines. */
  const LINE_BREAKS: set<char> :=
    {'\n', '\r', '\U{0B}', '\U{0C}', '\U{1C}', '\U{1D}', '\U{1E}', '\U{85}', '\U{2028}', '\U{2029}'}

  predicate OneLine(s: string) {
    forall i :: 0 <= i < |s| ==> s[i] !in LINE_BREAKS
  }

  function LineLength(s: string): (n: nat)
    ensures n <= |s| && OneLine(s[..n]) && (n < |s| ==> s[n] in LINE_BREAKS)
  {
    if s == [] || s[0] in LINE_BREAKS then 0
    else
      var n := LineLength(s[1..]) + 1;
      assert forall i :: 1 <= i < n ==> s[i] == s[1..][..n - 1][i - 1];
      n
  }

  /** `str.splitlines`: a final break ends the last line and starts no new one. */
  function SplitLines(s: string): seq<string>
    decreases |s|
  {
    if s == [] then []
    else
      var n := LineLength(s);
      if n == |s| then [s]
      else if s[n] == '\r' && n + 1 < |s| && s[n + 1] == '\n' then [s[..n]] + SplitLines(s[n + 2..])
      else [s[..n]] + SplitLines(s[n + 1..])
  }

  function JoinLines(lines: seq<string>): string {
    if lines == [] then [] else if |lines| == 1 then lines[0] else lines[0] + "\n" + JoinLines(lines[1..])
  }

  lemma LineLengthOf(line: string, rest: string)
    requires OneLine(line)
    ensures LineLength(line + "\n" + rest) == |line|
  {
    var s := line + "\n" + rest;
    var n := LineLength(s);
    assert forall i :: 0 <= i < |line| ==> s[i] == line[i];
    assert s[|line|] == '\n';
    assert forall i :: 0 <= i < n ==> s[i] == s[..n][i];
    hide LineLength;
  }

  lemma SplitFirst(line: string, rest: string)
    requires OneLine(line)
    ensures SplitLines(line + "\n" + rest) == [line] + SplitLines(rest)
  {
    hide LineLength, OneLine;
    var s := line + "\n" + rest;
    LineLengthOf(line, rest);
    assert s[..|line|] == line && s[|line| + 1..] == rest && s[|line|] == '\n';
  }

  lemma SplitNothing(lines: seq<string>)
    requires lines == [[]]
    ensures SplitLines(JoinLines(lines)) == lines[..0]
  {}

  lemma JoinFirst(lines: seq<string>)
    requires |lines| > 1
    ensures JoinLines(lines) == lines[0] + "\n" + JoinLines(lines[1..])
  {}

  /** Splitting joined lines gives them back; a final empty line only ends the text. */
  lemma {:induction false} SplitJoin(lines: seq<string>)
    requires forall i :: 0 <= i < |lines| ==> OneLine(lines[i])
    requires lines != [] && lines[|lines| - 1] == []
    ensures SplitLines(JoinLines(lines)) == lines[..|lines| - 1]
  {
    hide SplitLines, JoinLines, OneLine;
    if |lines| == 1 {
      SplitNothing(lines);
    } else {
      var first, rest := lines[0], lines[1..];
      SplitJoin(rest);
      JoinFirst(lines);
      SplitFirst(first, JoinLines(rest));
      assert lines[..|lines| - 1] == [first] + rest[..|rest| - 1];
    }
  }

  // ----- Patterns -----

  predicate IsWordChar(c: char) {
    'A' <= c <= 'Z' || 'a' <= c <= 'z' || '0' <= c <= '9' || c == '_'
  }

  predicate IsWord(s: string) {
    s != [] && forall i :: 0 <= i < |s| ==> IsWordChar(s[i])
  }

  function WordRun(s: string): (n: nat)
    ensures n <= |s| && forall i :: 0 <= i < n ==> IsWordChar(s[i])
    ensures n < |s| ==> !IsWordChar(s[n])
  {
    if s == [] || !IsWordChar(s[0]) then 0
    else
      var n := WordRun(s[1..]) + 1;
      assert forall i :: 1 <= i < n ==> s[i] == s[1..][i - 1];
      assert n < |s| ==> s[n] == s[1..][n - 1];
      n
  }

  /** Characters other than quote and backslash, and backslash pairs. */
  predicate IsBody(b: string)
    decreases |b|
  {
    b == [] ||
    (b[0] != '"' && b[0] != '\\' && IsBody(b[1..])) ||
    (b[0] == '\\' && |b| >= 2 && b[1] != '\n' && IsBody(b[2..]))
  }

  lemma {:induction false} EscapedIsBody(v: string)
    requires OneLine(v)
    ensures IsBody(EscapeEach(v))
  {
    if v != [] {
      var s, rest := EscapeEach(v), EscapeEach(v[1..]);
      EscapedIsBody(v[1..]);
      if v[0] == '\\' || v[0] == '"' { assert s[2..] == rest; } else { assert s[1..] == rest; }
    }
  }

  const SET_OPEN := "set("

  datatype Assignment = Assignment(name: string, body: string)

  /** A blank, the quoted body and the closing parenthesis. */
  function MatchQuoted(rest: string): Option<string> {
    if |rest| >= 4 && rest[..2] == " \"" && rest[|rest| - 2..] == "\")" && IsBody(rest[2..|rest| - 2])
    then Some(rest[2..|rest| - 2]) else None
  }

  /** `set(NAME "body")` on one line. */
  function MatchInline(line: string): Option<Assignment> {
    if !(SET_OPEN <= line) then None
    else
      var tail := line[4..];
      var n := WordRun(tail);
      if n == 0 then None
      else match MatchQuoted(tail[n..])
        case None => None
        case Some(body) => Some(Assignment(tail[..n], body))
  }

  /** `set(NAME` alone on its line. */
  function MatchHeader(line: string): Option<string> {
    if SET_OPEN <= line && IsWord(line[4..]) then Some(line[4..]) else None
  }

  /** An indented quoted value. */
  function MatchValue(line: string): Option<string> {
    if |line| >= 4 && line[..3] == "  \"" && line[|line| - 1] == '"' && IsBody(line[3..|line| - 1])
    then Some(line[3..|line| - 1]) else None
  }

  function InlineLine(name: string, v: string): string {
    SET_OPEN + name + " \"" + Escape(v) + "\")"
  }

  function HeaderLine(name: string): string {
    SET_OPEN + name
  }

  function ValueLine(v: string): string {
    "  \"" + Escape(v) + "\""
  }

  lemma WordRunOf(w: string, rest: string)
    requires IsWord(w) && (rest == [] || !IsWordChar(rest[0]))
    ensures WordRun(w + rest) == |w|
  {
    var s := w + rest;
    var n := WordRun(s);
    assert forall i :: 0 <= i < |w| ==> s[i] == w[i];
    assert rest != [] ==> s[|w|] == rest[0];
    hide WordRun;
  }

  lemma QuotedMatches(v: string)
    requires OneLine(v)
    ensures MatchQuoted(" \"" + Escape(v) + "\")") == Some(Escape(v))
  {
    EscapeIsEach(v);
    EscapedIsBody(v);
    hide Escape, EscapeEach, IsBody;
    var rest := " \"" + Escape(v) + "\")";
    assert rest[2..|rest| - 2] == Escape(v);
  }

  lemma InlineMatches(name: string, v: string)
    requires IsWord(name) && OneLine(v)
    ensures MatchInline(InlineLine(name, v)) == Some(Assignment(name, Escape(v)))
  {
    hide Escape, MatchQuoted;
    var rest := " \"" + Escape(v) + "\")";
    QuotedMatches(v);
    WordRunOf(name, rest);
    hide WordRun, IsWord, OneLine;
    var line := InlineLine(name, v);
    assert line == SET_OPEN + (name + rest);
    assert line[4..] == name + rest && (name + rest)[|name|..] == rest && (name + rest)[..|name|] == name;
  }

  lemma HeaderMatches(name: string)
    requires IsWord(name)
    ensures MatchInline(HeaderLine(name)) == None && MatchHeader(HeaderLine(name)) == Some(name)
  {
    var line := HeaderLine(name);
    assert line[4..] == name && name + [] == name;
    WordRunOf(name, []);
  }

  lemma ValueMatches(v: string)
    requires OneLine(v)
    ensures MatchValue(ValueLine(v)) == Some(Escape(v)) && ValueLine(v) != ")"
  {
    EscapeIsEach(v);
    EscapedIsBody(v);
    hide Escape, EscapeEach, IsBody;
    var line := ValueLine(v);
    assert line[3..|line| - 1] == Escape(v);
  }

  // ----- What the patterns accept -----

  /** The value pattern accepts exactly an indented quoted body. */
  lemma ValueIff(line: string, body: string)
    ensures MatchValue(line) == Some(body) <==> IsBody(body) && line == "  \"" + body + "\""
  {
    hide IsBody;
    if line == "  \"" + body + "\"" {
      assert line[3..|line| - 1] == body && line[..3] == "  \"";
    }
    if MatchValue(line).Some? {
      var inner := line[3..|line| - 1];
      assert line == line[..3] + inner + [line[|line| - 1]];
    }
  }

  lemma QuotedIff(rest: string, body: string)
    ensures MatchQuoted(rest) == Some(body) <==> IsBody(body) && rest == " \"" + body + "\")"
  {
    hide IsBody;
    if rest == " \"" + body + "\")" {
      assert rest[2..|rest| - 2] == body && rest[..2] == " \"" && rest[|rest| - 2..] == "\")";
    }
    if MatchQuoted(rest).Some? {
      var inner := rest[2..|rest| - 2];
      assert rest == rest[..2] + inner + rest[|rest| - 2..];
    }
  }

  lemma InlineAccepts(line: string, name: string, body: string)
    requires IsWord(name) && IsBody(body) && line == "set(" + name + " \"" + body + "\")"
    ensures MatchInline(line) == Some(Assignment(name, body))
  {
    hide IsBody, MatchQuoted, WordRun;
    var rest := " \"" + body + "\")";
    QuotedIff(rest, body);
    WordRunOf(name, rest);
    assert line == SET_OPEN + (name + rest);
    assert line[4..] == name + rest && (name + rest)[|name|..] == rest && (name + rest)[..|name|] == name;
  }

  lemma InlineOnly(line: string, name: string, body: string)
    requires MatchInline(line) == Some(Assignment(name, body))
    ensures IsWord(name) && IsBody(body) && line == "set(" + name + " \"" + body + "\")"
  {
    hide IsBody, MatchQuoted;
    var tail := line[4..];
    var n := WordRun(tail);
    var rest := tail[n..];
    QuotedIff(rest, body);
    assert tail[..n] == name && line == SET_OPEN + tail && tail == name + rest;
  }

  /** The inline pattern accepts exactly one name and one quoted body. */
  lemma InlineIff(line: string, name: string, body: string)
    ensures MatchInline(line) == Some(Assignment(name, body)) <==>
            IsWord(name) && IsBody(body) && line == "set(" + name + " \"" + body + "\")"
  {
    hide IsBody, IsWord, MatchInline;
    if IsWord(name) && IsBody(body) && line == "set(" + name + " \"" + body + "\")" {
      InlineAccepts(line, name, body);
    }
    if MatchInline(line) == Some(Assignment(name, body)) {
      InlineOnly(line, name, body);
    }
  }

  /** The header pattern accepts exactly one name. */
  lemma HeaderIff(line: string, name: string)
    ensures MatchHeader(line) == Some(name) <==> IsWord(name) && line == "set(" + name
  {
    hide IsWord;
    if line == "set(" + name {
      assert line[4..] == name;
    }
    if MatchHeader(line).Some? {
      assert line == SET_OPEN + line[4..];
    }
  }
}
