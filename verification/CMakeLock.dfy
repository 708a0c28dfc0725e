/** The dependency lock: rendering it, parsing it, and what a lookup in the parsed lock finds. */
module CMakeLock {
  import opened Optional
  import opened LockText

  datatype Dependency = Dependency(
    name: string, kind: string, owner: string, moduleName: string, repoName: string, version: string,
    devDependency: bool, urls: seq<string>, sha256: string, stripPrefix: string, sourceUrl: string,
    buildFile: string, downloadedFilePath: string, patches: seq<string>, patchArgs: seq<string>)

  datatype Value = Scalar(text: string) | List(items: seq<string>)

  datatype Property = Kind | Owner | ModuleName | RepoName | Version | DevDependency | SourceUrl | Urls | Sha256
                    | StripPrefix | BuildFile | DownloadedFilePath | Patches | PatchArgs

  function PropertyText(p: Property): string {
    match p
    case Kind => "KIND"
    case Owner => "OWNER"
    case ModuleName => "MODULE_NAME"
    case RepoName => "REPO_NAME"
    case Version => "VERSION"
    case DevDependency => "DEV_DEPENDENCY"
    case SourceUrl => "SOURCE_URL"
    case Urls => "URLS"
    case Sha256 => "SHA256"
    case StripPrefix => "STRIP_PREFIX"
    case BuildFile => "BUILD_FILE"
    case DownloadedFilePath => "DOWNLOADED_FILE_PATH"
    case Patches => "PATCHES"
    case PatchArgs => "PATCH_ARGS"
  }

  /** How a character is written in upper case; it may take several characters. */
  type Upper = char -> string

  function Sanitized(s: string): (r: string)
    ensures |r| == |s| && forall i :: 0 <= i < |r| ==> IsWordChar(r[i])
    ensures forall i :: 0 <= i < |r| ==> r[i] == if 'A' <= s[i] <= 'Z' || '0' <= s[i] <= '9' then s[i] else '_'
  {
    if s == [] then []
    else [if 'A' <= s[0] <= 'Z' || '0' <= s[0] <= '9' then s[0] else '_'] + Sanitized(s[1..])
  }

  function UpperCase(name: string, upper: Upper): string {
    if name == [] then [] else upper(name[0]) + UpperCase(name[1..], upper)
  }

  function Identifier(name: string, upper: Upper): (r: string)
    ensures forall i :: 0 <= i < |r| ==> IsWordChar(r[i])
  {
    Sanitized(UpperCase(name, upper))
  }

  const IDS := "IREE_DEPENDENCY_IDS"

  function Variable(identifier: string, p: Property): string {
    "IREE_DEP_" + identifier + "_" + PropertyText(p)
  }

  lemma Named(identifier: string, p: Property, suffix: string)
    requires "_" + PropertyText(p) == suffix
    ensures Variable(identifier, p) == "IREE_DEP_" + identifier + suffix
  {
    hide PropertyText;
    var a, t := "IREE_DEP_" + identifier, PropertyText(p);
    assert (a + "_") + t == a + ("_" + t);
  }

  lemma KindVariables(identifier: string)
    ensures Variable(identifier, Kind) == "IREE_DEP_" + identifier + "_KIND"
    ensures Variable(identifier, Owner) == "IREE_DEP_" + identifier + "_OWNER"
    ensures Variable(identifier, ModuleName) == "IREE_DEP_" + identifier + "_MODULE_NAME"
    ensures Variable(identifier, RepoName) == "IREE_DEP_" + identifier + "_REPO_NAME"
  {
    hide Variable;
    Named(identifier, Kind, "_KIND");
    Named(identifier, Owner, "_OWNER");
    Named(identifier, ModuleName, "_MODULE_NAME");
    Named(identifier, RepoName, "_REPO_NAME");
  }

  lemma VersionVariables(identifier: string)
    ensures Variable(identifier, Version) == "IREE_DEP_" + identifier + "_VERSION"
    ensures Variable(identifier, DevDependency) == "IREE_DEP_" + identifier + "_DEV_DEPENDENCY"
    ensures Variable(identifier, SourceUrl) == "IREE_DEP_" + identifier + "_SOURCE_URL"
  {
    hide Variable;
    Named(identifier, Version, "_VERSION");
    Named(identifier, DevDependency, "_DEV_DEPENDENCY");
    Named(identifier, SourceUrl, "_SOURCE_URL");
  }

  lemma ArchiveVariables(identifier: string)
    ensures Variable(identifier, Urls) == "IREE_DEP_" + identifier + "_URLS"
    ensures Variable(identifier, Sha256) == "IREE_DEP_" + identifier + "_SHA256"
    ensures Variable(identifier, StripPrefix) == "IREE_DEP_" + identifier + "_STRIP_PREFIX"
  {
    hide Variable;
    Named(identifier, Urls, "_URLS");
    Named(identifier, Sha256, "_SHA256");
    Named(identifier, StripPrefix, "_STRIP_PREFIX");
  }

  lemma FileVariables(identifier: string)
    ensures Variable(identifier, BuildFile) == "IREE_DEP_" + identifier + "_BUILD_FILE"
    ensures Variable(identifier, DownloadedFilePath) == "IREE_DEP_" + identifier + "_DOWNLOADED_FILE_PATH"
  {
    hide Variable;
    Named(identifier, BuildFile, "_BUILD_FILE");
    Named(identifier, DownloadedFilePath, "_DOWNLOADED_FILE_PATH");
  }

  lemma PatchVariables(identifier: string)
    ensures Variable(identifier, Patches) == "IREE_DEP_" + identifier + "_PATCHES"
    ensures Variable(identifier, PatchArgs) == "IREE_DEP_" + identifier + "_PATCH_ARGS"
  {
    hide Variable;
    Named(identifier, Patches, "_PATCHES");
    Named(identifier, PatchArgs, "_PATCH_ARGS");
  }

  /** The variables that CMake reads, by name. */
  lemma VariableNames(identifier: string)
    ensures Variable(identifier, Kind) == "IREE_DEP_" + identifier + "_KIND"
    ensures Variable(identifier, Owner) == "IREE_DEP_" + identifier + "_OWNER"
    ensures Variable(identifier, ModuleName) == "IREE_DEP_" + identifier + "_MODULE_NAME"
    ensures Variable(identifier, RepoName) == "IREE_DEP_" + identifier + "_REPO_NAME"
    ensures Variable(identifier, Version) == "IREE_DEP_" + identifier + "_VERSION"
    ensures Variable(identifier, DevDependency) == "IREE_DEP_" + identifier + "_DEV_DEPENDENCY"
    ensures Variable(identifier, SourceUrl) == "IREE_DEP_" + identifier + "_SOURCE_URL"
  {
    hide Variable, PropertyText;
    KindVariables(identifier);
    VersionVariables(identifier);
  }

  lemma SourceVariableNames(identifier: string)
    ensures Variable(identifier, Urls) == "IREE_DEP_" + identifier + "_URLS"
    ensures Variable(identifier, Sha256) == "IREE_DEP_" + identifier + "_SHA256"
    ensures Variable(identifier, StripPrefix) == "IREE_DEP_" + identifier + "_STRIP_PREFIX"
    ensures Variable(identifier, BuildFile) == "IREE_DEP_" + identifier + "_BUILD_FILE"
    ensures Variable(identifier, DownloadedFilePath) == "IREE_DEP_" + identifier + "_DOWNLOADED_FILE_PATH"
    ensures Variable(identifier, Patches) == "IREE_DEP_" + identifier + "_PATCHES"
    ensures Variable(identifier, PatchArgs) == "IREE_DEP_" + identifier + "_PATCH_ARGS"
  {
    hide Variable, PropertyText;
    ArchiveVariables(identifier);
    FileVariables(identifier);
    PatchVariables(identifier);
  }

  // ----- Variable names are unambiguous -----

  /** First character and length, enough to tell a property from the tail of another. */
  predicate HeadShape(c: char, n: nat) {
    (c, n) in {('K', 4), ('O', 5), ('M', 11), ('R', 9), ('V', 7), ('D', 14), ('S', 10), ('U', 4), ('S', 6),
               ('S', 12), ('B', 10), ('D', 20), ('P', 7), ('P', 10)}
  }

  predicate TailShape(c: char, n: nat) {
    (c, n) in {('N', 4), ('D', 10), ('U', 3), ('P', 6), ('F', 4), ('F', 9), ('P', 4), ('A', 4)}
  }

  lemma PropertyHead(q: Property)
    ensures var t := PropertyText(q); t != [] && HeadShape(t[0], |t|)
  {}

  lemma PropertyTail(p: Property, k: nat)
    requires k < |PropertyText(p)|
    ensures var s := PropertyText(p); s[k] == '_' ==> k + 1 < |s| && TailShape(s[k + 1], |s| - k - 1)
  {
    if p.DownloadedFilePath? {
      LongestTail(k);
    }
  }

  lemma LongestTail(k: nat)
    requires k < |PropertyText(DownloadedFilePath)|
    ensures var s := PropertyText(DownloadedFilePath); s[k] == '_' ==> k + 1 < |s| && TailShape(s[k + 1], |s| - k - 1)
  {}

  /** No property name ends in an underscore and another property name. */
  lemma NoPropertySuffix(p: Property, q: Property)
    requires |PropertyText(p)| > |PropertyText(q)|
    ensures PropertyText(p)[|PropertyText(p)| - |PropertyText(q)| - 1..] != "_" + PropertyText(q)
  {
    hide PropertyText;
    PropertyHead(q);
    var s, t := PropertyText(p), PropertyText(q);
    var k := |s| - |t| - 1;
    PropertyTail(p, k);
    assert (s[k..])[0] == s[k] && ("_" + t)[0] == '_';
    assert (s[k..])[1] == s[k + 1] && ("_" + t)[1] == t[0];
  }

  lemma SuffixEqual(a: string, s: string, b: string, t: string)
    requires a + "_" + s == b + "_" + t && |s| >= |t|
    ensures |s| == |t| ==> a == b && s == t
    ensures |s| > |t| ==> s[|s| - |t| - 1..] == "_" + t
  {
    var x := a + "_" + s;
    var y := b + "_" + t;
    if |s| == |t| {
      assert a == x[..|a|] == y[..|a|] == b;
      assert s == x[|a| + 1..] == y[|b| + 1..] == t;
    } else {
      var k := |s| - |t| - 1;
      assert s[k..] == x[|a| + 1 + k..] && "_" + t == y[|b|..];
    }
  }

  /** Identifier and property are recovered from the variable name, even when one identifier
      is a prefix of another. */
  lemma VariableInjective(a: string, p: Property, b: string, q: Property)
    requires Variable(a, p) == Variable(b, q)
    ensures a == b && p == q
  {
    hide PropertyText;
    var s, t := PropertyText(p), PropertyText(q);
    assert a + "_" + s == Variable(a, p)[9..] && b + "_" + t == Variable(b, q)[9..];
    if |s| >= |t| {
      SuffixEqual(a, s, b, t);
      if |s| > |t| { NoPropertySuffix(p, q); } else { SameText(p, q); }
    } else {
      SuffixEqual(b, t, a, s);
      NoPropertySuffix(q, p);
    }
  }

  lemma SameText(p: Property, q: Property)
    requires PropertyText(p) == PropertyText(q)
    ensures p == q
  {
    var s, t := PropertyText(p), PropertyText(q);
    assert |s| == |t| && s[0] == t[0] && s[1] == t[1];
  }

  lemma VariableIsWord(identifier: string, p: Property)
    requires forall i :: 0 <= i < |identifier| ==> IsWordChar(identifier[i])
    ensures IsWord(Variable(identifier, p)) && Variable(identifier, p) != IDS
  {
    var v, t := Variable(identifier, p), PropertyText(p);
    PropertyIsWord(p);
    assert v[8] == '_' && IDS[8] == 'E';
    forall i | 0 <= i < |v| ensures IsWordChar(v[i]) {
      if i < 9 { assert v[i] == "IREE_DEP_"[i]; }
      else if i < 9 + |identifier| { assert v[i] == identifier[i - 9]; }
      else if i > 9 + |identifier| { assert v[i] == t[i - 10 - |identifier|]; }
    }
  }

  lemma PropertyIsWord(p: Property)
    ensures IsWord(PropertyText(p))
  {
    if p.StripPrefix? || p.BuildFile? || p.DownloadedFilePath? || p.Patches? || p.PatchArgs? || p.DevDependency? {
      LongPropertyIsWord(p);
    } else {
      ShortPropertyIsWord(p);
    }
  }

  lemma LongPropertyIsWord(p: Property)
    requires p.StripPrefix? || p.BuildFile? || p.DownloadedFilePath? || p.Patches? || p.PatchArgs? || p.DevDependency?
    ensures IsWord(PropertyText(p))
  {
    var t := PropertyText(p);
    forall i | 0 <= i < |t| ensures IsWordChar(t[i]) {}
  }

  lemma ShortPropertyIsWord(p: Property)
    requires !(p.StripPrefix? || p.BuildFile? || p.DownloadedFilePath? || p.Patches? || p.PatchArgs? ||
             p.DevDependency?)
    ensures IsWord(PropertyText(p))
  {
    var t := PropertyText(p);
    forall i | 0 <= i < |t| ensures IsWordChar(t[i]) {}
  }

  // ----- Assignments and their lines -----

  datatype Set = Set(name: string, value: Value)

  function ListOrEmpty(items: seq<string>): Value {
    if items == [] then Scalar("") else List(items)
  }

  /** The properties of one dependency, in the order they are written. */
  function Properties(d: Dependency): seq<(Property, Value)> {
    [(Kind, Scalar(d.kind)), (Owner, Scalar(d.owner)), (ModuleName, Scalar(d.moduleName)),
     (RepoName, Scalar(d.repoName)), (Version, Scalar(d.version)),
     (DevDependency, Scalar(if d.devDependency then "TRUE" else "FALSE")),
     (SourceUrl, Scalar(d.sourceUrl)), (Urls, ListOrEmpty(d.urls)), (Sha256, Scalar(d.sha256)),
     (StripPrefix, Scalar(d.stripPrefix)), (BuildFile, Scalar(d.buildFile))] +
    (if d.kind == "http_file" then [(DownloadedFilePath, Scalar(d.downloadedFilePath))] else []) +
    [(Patches, ListOrEmpty(d.patches)), (PatchArgs, ListOrEmpty(d.patchArgs))]
  }

  function SetsOf(identifier: string, properties: seq<(Property, Value)>): seq<Set> {
    seq(|properties|, i requires 0 <= i < |properties| => Set(Variable(identifier, properties[i].0), properties[i].1))
  }

  function DependencySets(d: Dependency, upper: Upper): seq<Set> {
    SetsOf(Identifier(d.name, upper), Properties(d))
  }

  function ValueLines(items: seq<string>): seq<string> {
    seq(|items|, i requires 0 <= i < |items| => ValueLine(items[i]))
  }

  function SetLines(s: Set): seq<string> {
    match s.value
    case Scalar(text) => [InlineLine(s.name, text)]
    case List(items) => [HeaderLine(s.name)] + ValueLines(items) + [")"]
  }

  function AllSetLines(sets: seq<Set>): seq<string> {
    if sets == [] then [] else SetLines(sets[0]) + AllSetLines(sets[1..])
  }

  /** Everything a line of the lock may hold stays on that line. */
  predicate CleanValue(v: Value) {
    match v
    case Scalar(text) => OneLine(text)
    case List(items) => forall i :: 0 <= i < |items| ==> OneLine(items[i])
  }

  predicate CleanSet(s: Set) {
    IsWord(s.name) && CleanValue(s.value)
  }

  // ----- Parsing -----

  type Variables = map<string, Value>

  /** The values of a multi-line assignment and the lines after its closing parenthesis. */
  function ParseValues(lines: seq<string>): (r: Option<(seq<string>, seq<string>)>)
    ensures r.Some? ==> |r.value.1| <= |lines|
  {
    if lines == [] then Some(([], []))
    else if lines[0] == ")" then Some(([], lines[1..]))
    else match MatchValue(lines[0])
      case None => None
      case Some(body) =>
        match ParseValues(lines[1..])
        case None => None
        case Some((values, rest)) => Some(([Unescape(body)] + values, rest))
  }

  /** Every `set` of the text in order; other lines are skipped, a malformed value is an error. */
  function ParseSets(lines: seq<string>, variables: Variables): Option<Variables>
    decreases |lines|
  {
    if lines == [] then Some(variables)
    else match MatchInline(lines[0])
      case Some(a) => ParseSets(lines[1..], variables[a.name := Scalar(Unescape(a.body))])
      case None =>
        match MatchHeader(lines[0])
        case None => ParseSets(lines[1..], variables)
        case Some(name) =>
          match ParseValues(lines[1..])
          case None => None
          case Some((values, rest)) => ParseSets(rest, variables[name := List(values)])
  }

  method ParseCMakeSets(lines: seq<string>) returns (r: Option<Variables>)
    ensures r == ParseSets(lines, map[])
  {
    hide MatchInline, MatchHeader, MatchValue;
    var variables: Variables := map[];
    var k := 0;
    while k < |lines|
      invariant 0 <= k <= |lines|
      invariant ParseSets(lines[k..], variables) == ParseSets(lines, map[])
    {
      var line := lines[k];
      assert lines[k..][1..] == lines[k + 1..];
      k := k + 1;
      var inline := MatchInline(line);
      if inline.Some? {
        variables := variables[inline.value.name := Scalar(Unescape(inline.value.body))];
        continue;
      }
      var header := MatchHeader(line);
      if header.None? {
        continue;
      }
      var values: seq<string> := [];
      ghost var first := k;
      ghost var expected := ParseValues(lines[first..]);
      var open := true;
      assert [] + (if expected.Some? then expected.value.0 else []) == if expected.Some? then expected.value.0 else [];
      while open && k < |lines|
        invariant first <= k <= |lines|
        invariant open ==> (ParseValues(lines[k..]).None? <==> expected.None?)
        invariant open && expected.Some? ==>
                    expected.value == (values + ParseValues(lines[k..]).value.0, ParseValues(lines[k..]).value.1)
        invariant !open ==> expected == Some((values, lines[k..]))
        decreases open, |lines| - k
      {
        var valueLine := lines[k];
        assert lines[k..][1..] == lines[k + 1..];
        k := k + 1;
        if valueLine == ")" {
          open := false;
          assert values + [] == values;
        } else {
          var matched := MatchValue(valueLine);
          if matched.None? {
            return None;
          }
          ghost var tail := ParseValues(lines[k..]);
          if tail.Some? {
            assert values + ([Unescape(matched.value)] + tail.value.0) ==
                   values + [Unescape(matched.value)] + tail.value.0;
          }
          values := values + [Unescape(matched.value)];
        }
      }
      if open {
        assert lines[k..] == [] && values + [] == values;
      }
      variables := variables[header.value := List(values)];
    }
    assert lines[0..] == lines;
    return Some(variables);
  }

  lemma {:induction false} ParseValueLines(items: seq<string>, rest: seq<string>)
    requires forall i :: 0 <= i < |items| ==> OneLine(items[i])
    ensures ParseValues(ValueLines(items) + [")"] + rest) == Some((items, rest))
  {
    hide MatchValue, Unescape, Escape, ValueLine, OneLine;
    var lines := ValueLines(items) + [")"] + rest;
    if items == [] {
      assert lines[1..] == rest;
    } else {
      ParseValueLines(items[1..], rest);
      ValueMatches(items[0]);
      UnescapeEscape(items[0]);
      assert ValueLines(items)[1..] == ValueLines(items[1..]);
      assert lines[0] == ValueLine(items[0]) && lines[1..] == ValueLines(items[1..]) + [")"] + rest;
      assert [items[0]] + items[1..] == items;
    }
  }

  lemma ParseInline(name: string, text: string, rest: seq<string>, variables: Variables)
    requires IsWord(name) && OneLine(text)
    ensures ParseSets([InlineLine(name, text)] + rest, variables) == ParseSets(rest, variables[name := Scalar(text)])
  {
    hide MatchInline, MatchHeader, Unescape, Escape, InlineLine, IsWord, OneLine, ParseValues;
    InlineMatches(name, text);
    UnescapeEscape(text);
    var lines := [InlineLine(name, text)] + rest;
    assert lines[0] == InlineLine(name, text) && lines[1..] == rest;
  }

  lemma ParseMultiple(name: string, items: seq<string>, rest: seq<string>, variables: Variables)
    requires IsWord(name) && forall i :: 0 <= i < |items| ==> OneLine(items[i])
    ensures ParseSets([HeaderLine(name)] + (ValueLines(items) + [")"] + rest), variables)
            == ParseSets(rest, variables[name := List(items)])
  {
    hide MatchInline, MatchHeader, ParseValues, ValueLines, HeaderLine, IsWord, OneLine;
    HeaderMatches(name);
    ParseValueLines(items, rest);
    var tail := ValueLines(items) + [")"] + rest;
    var lines := [HeaderLine(name)] + tail;
    assert lines[0] == HeaderLine(name) && lines[1..] == tail;
  }

  lemma ParseSetLines(s: Set, rest: seq<string>, variables: Variables)
    requires CleanSet(s)
    ensures ParseSets(SetLines(s) + rest, variables) == ParseSets(rest, variables[s.name := s.value])
  {
    hide ParseSets, InlineLine, HeaderLine, ValueLines, IsWord, OneLine;
    match s.value {
      case Scalar(text) =>
        ParseInline(s.name, text, rest, variables);
      case List(items) =>
        ParseMultiple(s.name, items, rest, variables);
        assert SetLines(s) + rest == [HeaderLine(s.name)] + (ValueLines(items) + [")"] + rest);
    }
  }

  function AssignAll(variables: Variables, sets: seq<Set>): Variables
    decreases |sets|
  {
    if sets == [] then variables else AssignAll(variables[sets[0].name := sets[0].value], sets[1..])
  }

  lemma {:induction false} ParseAllSetLines(sets: seq<Set>, rest: seq<string>, variables: Variables)
    requires forall i :: 0 <= i < |sets| ==> CleanSet(sets[i])
    ensures ParseSets(AllSetLines(sets) + rest, variables) == ParseSets(rest, AssignAll(variables, sets))
    decreases |sets|
  {
    hide ParseSets, CleanSet, SetLines;
    if sets == [] {
      assert AllSetLines(sets) + rest == rest;
    } else {
      ParseSetLines(sets[0], AllSetLines(sets[1..]) + rest, variables);
      ParseAllSetLines(sets[1..], rest, variables[sets[0].name := sets[0].value]);
      assert AllSetLines(sets) + rest == SetLines(sets[0]) + (AllSetLines(sets[1..]) + rest);
    }
  }

  /** A line that opens no assignment. */
  lemma SkipLine(line: string, rest: seq<string>, variables: Variables)
    requires line == [] || line[0] != 's'
    ensures ParseSets([line] + rest, variables) == ParseSets(rest, variables)
  {
    assert ([line] + rest)[1..] == rest;
    assert !(SET_OPEN <= line);
  }

  // ----- The whole lock -----

  /** The licence and notice at the top: blank lines and comments. */
  predicate IsPreamble(preamble: seq<string>) {
    forall i :: 0 <= i < |preamble| ==> OneLine(preamble[i]) && (preamble[i] == [] || preamble[i][0] == '#')
  }

  function Names(deps: seq<Dependency>): (r: seq<string>)
    ensures |r| == |deps| && forall i :: 0 <= i < |r| ==> r[i] == deps[i].name
  {
    if deps == [] then [] else Names(deps[..|deps| - 1]) + [deps[|deps| - 1].name]
  }

  /** A dependency after a blank line. */
  function Block(d: Dependency, upper: Upper): seq<string> {
    [""] + AllSetLines(DependencySets(d, upper))
  }

  function Blocks(deps: seq<Dependency>, upper: Upper): seq<string> {
    if deps == [] then [] else Block(deps[0], upper) + Blocks(deps[1..], upper)
  }

  function LockLines(preamble: seq<string>, deps: seq<Dependency>, upper: Upper): seq<string> {
    preamble + SetLines(Set(IDS, List(Names(deps)))) + Blocks(deps, upper)
  }

  function LockFile(preamble: seq<string>, deps: seq<Dependency>, upper: Upper): string {
    JoinLines(LockLines(preamble, deps, upper) + [""])
  }

  lemma {:induction false} BlocksAppend(deps: seq<Dependency>, d: Dependency, upper: Upper)
    ensures Blocks(deps + [d], upper) == Blocks(deps, upper) + Block(d, upper)
  {
    hide Block;
    if deps == [] {
      assert ([d])[1..] == [] && deps + [d] == [d];
      assert Blocks([d][1..], upper) == [];
    } else {
      BlocksAppend(deps[1..], d, upper);
      assert (deps + [d])[1..] == deps[1..] + [d];
    }
  }

  /** The list of names, as its own assignment. */
  method RenderNames(deps: seq<Dependency>) returns (lines: seq<string>)
    ensures lines == SetLines(Set(IDS, List(Names(deps))))
  {
    hide ValueLine, HeaderLine;
    lines := [HeaderLine(IDS)];
    var names := Names(deps);
    for k := 0 to |deps|
      invariant lines == [HeaderLine(IDS)] + ValueLines(names[..k])
    {
      assert names[..k + 1] == names[..k] + [deps[k].name];
      assert ValueLines(names[..k + 1]) == ValueLines(names[..k]) + [ValueLine(deps[k].name)];
      lines := lines + [ValueLine(deps[k].name)];
    }
    assert names[..|deps|] == names;
    lines := lines + [")"];
  }

  method RenderCMakeLock(preamble: seq<string>, deps: seq<Dependency>, upper: Upper) returns (text: string)
    ensures text == LockFile(preamble, deps, upper)
  {
    hide DependencySets, AllSetLines, SetLines, Names;
    var ids := RenderNames(deps);
    var lines := preamble + ids + [""];
    ghost var front := preamble + ids;
    for k := 0 to |deps|
      invariant lines == front + Blocks(deps[..k], upper) + [""]
    {
      hide Blocks;
      BlocksAppend(deps[..k], deps[k], upper);
      assert deps[..k + 1] == deps[..k] + [deps[k]];
      ghost var before, sets := Blocks(deps[..k], upper), AllSetLines(DependencySets(deps[k], upper));
      assert front + before + [""] + sets + [""] == front + (before + ([""] + sets)) + [""];
      lines := lines + AllSetLines(DependencySets(deps[k], upper)) + [""];
    }
    assert deps[..|deps|] == deps;
    text := JoinLines(lines);
  }

  /** All rendered strings of a dependency stay on one line. */
  predicate CleanDependency(d: Dependency) {
    && OneLine(d.name) && OneLine(d.kind) && OneLine(d.owner) && OneLine(d.moduleName) && OneLine(d.repoName)
    && OneLine(d.version) && OneLine(d.sha256) && OneLine(d.stripPrefix) && OneLine(d.sourceUrl)
    && OneLine(d.buildFile) && OneLine(d.downloadedFilePath)
    && CleanValue(List(d.urls)) && CleanValue(List(d.patches)) && CleanValue(List(d.patchArgs))
  }

  predicate Clean(deps: seq<Dependency>) {
    forall i :: 0 <= i < |deps| ==> CleanDependency(deps[i])
  }

  lemma DependencySetsClean(d: Dependency, upper: Upper)
    requires CleanDependency(d)
    ensures forall i :: 0 <= i < |DependencySets(d, upper)| ==> CleanSet(DependencySets(d, upper)[i])
  {
    hide IsWord, Variable, Identifier;
    var properties, identifier := Properties(d), Identifier(d.name, upper);
    PropertiesClean(d);
    forall i | 0 <= i < |properties| ensures CleanSet(SetsOf(identifier, properties)[i]) {
      VariableIsWord(identifier, properties[i].0);
    }
  }

  lemma PropertiesClean(d: Dependency)
    requires CleanDependency(d)
    ensures forall i :: 0 <= i < |Properties(d)| ==> CleanValue(Properties(d)[i].1)
  {
    assert OneLine("TRUE") && OneLine("FALSE") && OneLine("");
  }

  function AllSets(deps: seq<Dependency>, upper: Upper): seq<Set> {
    if deps == [] then [] else DependencySets(deps[0], upper) + AllSets(deps[1..], upper)
  }

  lemma {:induction false} AssignConcat(variables: Variables, a: seq<Set>, b: seq<Set>)
    ensures AssignAll(variables, a + b) == AssignAll(AssignAll(variables, a), b)
    decreases |a|
  {
    if a == [] {
      assert a + b == b;
    } else {
      assert (a + b)[1..] == a[1..] + b;
      AssignConcat(variables[a[0].name := a[0].value], a[1..], b);
    }
  }

  lemma ParseBlock(d: Dependency, rest: seq<string>, variables: Variables, upper: Upper)
    requires CleanDependency(d)
    ensures ParseSets(Block(d, upper) + rest, variables) ==
            ParseSets(rest, AssignAll(variables, DependencySets(d, upper)))
  {
    hide ParseSets, DependencySets, AllSetLines, CleanSet, CleanDependency, AssignAll;
    var sets := DependencySets(d, upper);
    SkipLine("", AllSetLines(sets) + rest, variables);
    assert Block(d, upper) + rest == [""] + (AllSetLines(sets) + rest);
    DependencySetsClean(d, upper);
    ParseAllSetLines(sets, rest, variables);
  }

  lemma {:induction false} ParseBlocks(deps: seq<Dependency>, variables: Variables, upper: Upper)
    requires Clean(deps)
    ensures ParseSets(Blocks(deps, upper), variables) == Some(AssignAll(variables, AllSets(deps, upper)))
    decreases |deps|
  {
    if deps != [] {
      hide ParseSets, DependencySets, Block, CleanDependency, AssignAll;
      ParseBlock(deps[0], Blocks(deps[1..], upper), variables, upper);
      ParseBlocks(deps[1..], AssignAll(variables, DependencySets(deps[0], upper)), upper);
      AssignConcat(variables, DependencySets(deps[0], upper), AllSets(deps[1..], upper));
    }
  }

  lemma {:induction false} SkipLines(lines: seq<string>, rest: seq<string>, variables: Variables)
    requires forall i :: 0 <= i < |lines| ==> lines[i] == [] || lines[i][0] != 's'
    ensures ParseSets(lines + rest, variables) == ParseSets(rest, variables)
  {
    if lines == [] {
      assert lines + rest == rest;
    } else {
      SkipLine(lines[0], lines[1..] + rest, variables);
      SkipLines(lines[1..], rest, variables);
      assert lines + rest == [lines[0]] + (lines[1..] + rest);
    }
  }

  /** What parsing a rendered lock yields. */
  function LockVariables(deps: seq<Dependency>, upper: Upper): Variables {
    AssignAll(map[IDS := List(Names(deps))], AllSets(deps, upper))
  }

  lemma ParseLockLines(preamble: seq<string>, deps: seq<Dependency>, upper: Upper)
    requires IsPreamble(preamble) && Clean(deps)
    ensures ParseSets(LockLines(preamble, deps, upper), map[]) == Some(LockVariables(deps, upper))
  {
    hide ParseSets, SetLines, Blocks, AllSets, AssignAll, CleanDependency;
    var ids, rest := Set(IDS, List(Names(deps))), Blocks(deps, upper);
    assert LockLines(preamble, deps, upper) == preamble + (SetLines(ids) + rest);
    SkipLines(preamble, SetLines(ids) + rest, map[]);
    NamesClean(deps);
    ParseSetLines(ids, rest, map[]);
    assert map[][IDS := List(Names(deps))] == map[IDS := List(Names(deps))];
    ParseBlocks(deps, map[IDS := List(Names(deps))], upper);
  }

  lemma NamesClean(deps: seq<Dependency>)
    requires Clean(deps)
    ensures CleanSet(Set(IDS, List(Names(deps))))
  {
    assert IsWord(IDS);
  }

  // ----- Lookups in the parsed lock -----

  lemma {:induction false} AssignKeeps(variables: Variables, sets: seq<Set>, x: string)
    requires forall i :: 0 <= i < |sets| ==> sets[i].name != x
    ensures x in AssignAll(variables, sets) <==> x in variables
    ensures x in variables ==> AssignAll(variables, sets)[x] == variables[x]
    decreases |sets|
  {
    if sets != [] { AssignKeeps(variables[sets[0].name := sets[0].value], sets[1..], x); }
  }

  lemma {:induction false} AssignLast(variables: Variables, sets: seq<Set>, k: nat)
    requires k < |sets| && forall i :: k < i < |sets| ==> sets[i].name != sets[k].name
    ensures sets[k].name in AssignAll(variables, sets) && AssignAll(variables, sets)[sets[k].name] == sets[k].value
  {
    var front, back := sets[..k + 1], sets[k + 1..];
    assert sets == front + back;
    AssignConcat(variables, front, back);
    assert front == sets[..k] + [sets[k]];
    AssignConcat(variables, sets[..k], [sets[k]]);
    assert [sets[k]][1..] == [];
    var before := AssignAll(variables, sets[..k]);
    assert AssignAll(before, [sets[k]]) == before[sets[k].name := sets[k].value] by {
      assert AssignAll(before[sets[k].name := sets[k].value], []) == before[sets[k].name := sets[k].value];
    }
    AssignKeeps(AssignAll(variables, front), back, sets[k].name);
  }

  lemma {:induction false} AllSetsConcat(a: seq<Dependency>, b: seq<Dependency>, upper: Upper)
    ensures AllSets(a + b, upper) == AllSets(a, upper) + AllSets(b, upper)
  {
    hide DependencySets;
    if a == [] {
      assert a + b == b;
    } else {
      assert (a + b)[1..] == a[1..] + b;
      AllSetsConcat(a[1..], b, upper);
      var first, mid, last := DependencySets(a[0], upper), AllSets(a[1..], upper), AllSets(b, upper);
      assert first + (mid + last) == (first + mid) + last;
    }
  }

  /** Dependencies with other identifiers write other variables. */
  lemma {:induction false} OtherIdentifiers(deps: seq<Dependency>, identifier: string, p: Property, upper: Upper)
    requires forall i :: 0 <= i < |deps| ==> Identifier(deps[i].name, upper) != identifier
    ensures forall i :: 0 <= i < |AllSets(deps, upper)| ==> AllSets(deps, upper)[i].name != Variable(identifier, p)
  {
    if deps != [] {
      hide Variable, Identifier, Properties;
      var sets, rest := DependencySets(deps[0], upper), AllSets(deps[1..], upper);
      OtherIdentifiers(deps[1..], identifier, p, upper);
      forall i | 0 <= i < |sets| ensures sets[i].name != Variable(identifier, p) {
        var q := Properties(deps[0])[i].0;
        if Variable(Identifier(deps[0].name, upper), q) == Variable(identifier, p) {
          VariableInjective(Identifier(deps[0].name, upper), q, identifier, p);
        }
      }
      hide DependencySets;
    }
  }

  /** A property is written once for each dependency. */
  ghost predicate Writes(d: Dependency, k: nat, p: Property, v: Value) {
    && k < |Properties(d)| && Properties(d)[k] == (p, v)
    && forall i :: k < i < |Properties(d)| ==> Properties(d)[i].0 != p
  }

  /** The last dependency with an identifier decides its variables. */
  lemma LastWins(deps: seq<Dependency>, j: nat, k: nat, p: Property, v: Value, upper: Upper)
    requires j < |deps| && Writes(deps[j], k, p, v)
    requires forall i :: j < i < |deps| ==> Identifier(deps[i].name, upper) != Identifier(deps[j].name, upper)
    ensures var x := Variable(Identifier(deps[j].name, upper), p);
            x in LockVariables(deps, upper) && LockVariables(deps, upper)[x] == v
  {
    hide Variable, Identifier, Properties;
    var identifier := Identifier(deps[j].name, upper);
    var x, start := Variable(identifier, p), map[IDS := List(Names(deps))];
    var before, own, after := AllSets(deps[..j], upper), DependencySets(deps[j], upper), AllSets(deps[j + 1..], upper);
    assert deps == deps[..j] + deps[j..];
    AllSetsConcat(deps[..j], deps[j..], upper);
    assert deps[j..][1..] == deps[j + 1..];
    assert AllSets(deps[j..], upper) == own + after;
    AssignConcat(start, before, own + after);
    AssignConcat(AssignAll(start, before), own, after);
    forall i | k < i < |own| ensures own[i].name != x {
      var q := Properties(deps[j])[i].0;
      if Variable(identifier, q) == x { VariableInjective(identifier, q, identifier, p); }
    }
    assert own[k] == Set(x, v);
    AssignLast(AssignAll(start, before), own, k);
    OtherIdentifiers(deps[j + 1..], identifier, p, upper);
    AssignKeeps(AssignAll(AssignAll(start, before), own), after, x);
  }

  // ----- Every line is one line -----

  predicate OneLines(lines: seq<string>) {
    forall i :: 0 <= i < |lines| ==> OneLine(lines[i])
  }

  lemma OneLineConcat(a: string, b: string)
    requires OneLine(a) && OneLine(b)
    ensures OneLine(a + b)
  {}

  lemma {:induction false} EscapedOneLine(v: string)
    requires OneLine(v)
    ensures OneLine(Escape(v))
  {
    EscapeIsEach(v);
    hide Escape;
    if v != [] {
      EscapedOneLine(v[1..]);
      EscapeIsEach(v[1..]);
      assert OneLine("\\\\") && OneLine("\\\"") && OneLine([v[0]]);
      OneLineConcat(if v[0] == '\\' then "\\\\" else if v[0] == '"' then "\\\"" else [v[0]], EscapeEach(v[1..]));
    }
  }

  lemma WordOneLine(w: string)
    requires IsWord(w)
    ensures OneLine(w)
  {}

  lemma SetLinesOneLine(s: Set)
    requires CleanSet(s)
    ensures OneLines(SetLines(s))
  {
    WordOneLine(s.name);
    assert OneLine(SET_OPEN) && OneLine(" \"") && OneLine("\")") && OneLine("  \"") && OneLine("\"") && OneLine(")");
    OneLineConcat(SET_OPEN, s.name);
    hide Escape;
    match s.value
    case Scalar(text) =>
      EscapedOneLine(text);
      hide OneLine;
      OneLineConcat(SET_OPEN + s.name, " \"");
      OneLineConcat(SET_OPEN + s.name + " \"", Escape(text));
      OneLineConcat(SET_OPEN + s.name + " \"" + Escape(text), "\")");
    case List(items) =>
      hide OneLine;
      forall i | 0 <= i < |items| ensures OneLine(ValueLine(items[i])) {
        EscapedOneLine(items[i]);
        OneLineConcat("  \"", Escape(items[i]));
        OneLineConcat("  \"" + Escape(items[i]), "\"");
      }
  }

  lemma OneLinesConcat(a: seq<string>, b: seq<string>)
    requires OneLines(a) && OneLines(b)
    ensures OneLines(a + b)
  {
    hide OneLine;
  }

  lemma {:induction false} AllSetLinesOneLine(sets: seq<Set>)
    requires forall i :: 0 <= i < |sets| ==> CleanSet(sets[i])
    ensures OneLines(AllSetLines(sets))
  {
    if sets != [] {
      hide CleanSet, SetLines, OneLines;
      SetLinesOneLine(sets[0]);
      AllSetLinesOneLine(sets[1..]);
      OneLinesConcat(SetLines(sets[0]), AllSetLines(sets[1..]));
    }
  }

  lemma {:induction false} BlocksOneLine(deps: seq<Dependency>, upper: Upper)
    requires Clean(deps)
    ensures OneLines(Blocks(deps, upper))
  {
    if deps != [] {
      hide CleanSet, CleanDependency, DependencySets, AllSetLines;
      DependencySetsClean(deps[0], upper);
      AllSetLinesOneLine(DependencySets(deps[0], upper));
      BlocksOneLine(deps[1..], upper);
      OneLinesConcat([""], AllSetLines(DependencySets(deps[0], upper)));
      OneLinesConcat(Block(deps[0], upper), Blocks(deps[1..], upper));
    }
  }

  /** Reading the rendered file back gives its lines. */
  lemma LockSplits(preamble: seq<string>, deps: seq<Dependency>, upper: Upper)
    requires IsPreamble(preamble) && Clean(deps)
    ensures SplitLines(LockFile(preamble, deps, upper)) == LockLines(preamble, deps, upper)
  {
    var ids := Set(IDS, List(Names(deps)));
    NamesClean(deps);
    SetLinesOneLine(ids);
    BlocksOneLine(deps, upper);
    assert OneLines(preamble);
    hide SetLines, Blocks, CleanDependency, CleanSet, OneLine, JoinLines, SplitLines;
    OneLinesConcat(preamble, SetLines(ids));
    OneLinesConcat(preamble + SetLines(ids), Blocks(deps, upper));
    var lines := LockLines(preamble, deps, upper) + [""];
    assert OneLine("") by { EmptyOneLine(); }
    OneLinesConcat(LockLines(preamble, deps, upper), [""]);
    SplitJoin(lines);
    assert lines[..|lines| - 1] == LockLines(preamble, deps, upper);
  }

  lemma EmptyOneLine()
    ensures OneLine("")
  {}
}
