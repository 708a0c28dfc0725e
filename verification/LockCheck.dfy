/** The offline check: declared dependencies against the lock that was rendered for them. */
module LockCheck {
  import opened Optional
  import opened LockText
  import opened CMakeLock

  predicate IsFixedKind(kind: string) {
    kind == "http_archive" || kind == "http_file" || kind == "rocm_repository"
  }

  predicate IsSha256(s: string) {
    |s| == 64 && forall i :: 0 <= i < |s| ==> '0' <= s[i] <= '9' || 'a' <= s[i] <= 'f'
  }

  /** The text of a scalar property, empty when missing; a list has no such text. */
  function TextOf(variables: Variables, identifier: string, p: Property): Option<string> {
    var x := Variable(identifier, p);
    if x !in variables then Some("") else if variables[x].Scalar? then Some(variables[x].text) else None
  }

  /** The items of a property; a scalar is iterated character by character. */
  function ItemsOf(variables: Variables, identifier: string, p: Property): seq<string> {
    var x := Variable(identifier, p);
    if x !in variables then [] else match variables[x] case List(items) => items case Scalar(text) => Characters(text)
  }

  function Characters(s: string): seq<string> {
    if s == [] then [] else [[s[0]]] + Characters(s[1..])
  }

  predicate IdentityMatches(d: Dependency, variables: Variables, identifier: string) {
    && TextOf(variables, identifier, Kind) == Some(d.kind)
    && TextOf(variables, identifier, Owner) == Some(d.owner)
    && TextOf(variables, identifier, ModuleName) == Some(d.moduleName)
    && TextOf(variables, identifier, RepoName) == Some(d.repoName)
    && TextOf(variables, identifier, Version) == Some(d.version)
    && TextOf(variables, identifier, DevDependency) == Some(if d.devDependency then "TRUE" else "FALSE")
  }

  /** The locked names; a lock without the list has none. */
  function LockedNames(variables: Variables): seq<string> {
    if IDS !in variables then [] else match variables[IDS] case List(items) => items case Scalar(text) => [text]
  }

  /** Takes the source metadata from the lock after checking the declaration against it. */
  function ResolveForCheck(d: Dependency, variables: Variables, upper: Upper): Option<Dependency> {
    if IsFixedKind(d.kind) then Some(d)
    else if d.kind != "bazel_dep" || d.name !in LockedNames(variables) then None
    else
      var identifier := Identifier(d.name, upper);
      var urls, sha256 := ItemsOf(variables, identifier, Urls), TextOf(variables, identifier, Sha256);
      var prefix, source := TextOf(variables, identifier, StripPrefix), TextOf(variables, identifier, SourceUrl);
      if !IdentityMatches(d, variables, identifier) || urls == [] || sha256.None? || !IsSha256(sha256.value) ||
         prefix.None? || source.None? then None
      else Some(d.(urls := urls, sha256 := sha256.value, stripPrefix := prefix.value, sourceUrl := source.value))
  }

  function ResolveAll(declared: seq<Dependency>, variables: Variables, upper: Upper): Option<seq<Dependency>> {
    if declared == [] then Some([])
    else
      match (ResolveAll(declared[..|declared| - 1], variables, upper),
             ResolveForCheck(declared[|declared| - 1], variables, upper)) {
        case (Some(before), Some(d)) => Some(before + [d])
        case _ => None
      }
  }

  /** Check mode: parse the lock text, then resolve every declaration against it. */
  function CheckAgainst(declared: seq<Dependency>, text: string, upper: Upper): Option<seq<Dependency>> {
    match ParseSets(SplitLines(text), map[])
    case None => None
    case Some(variables) => ResolveAll(declared, variables, upper)
  }

  /** `r` is `d` with registry metadata filled in, as update mode returns it. */
  ghost predicate UpdateResolves(d: Dependency, r: Dependency) {
    if IsFixedKind(d.kind) then r == d
    else
      && d.kind == "bazel_dep"
      && r == d.(urls := r.urls, sha256 := r.sha256, stripPrefix := r.stripPrefix, sourceUrl := r.sourceUrl)
      && r.urls != [] && IsSha256(r.sha256)
  }

  /** Declarations with unique names, named like their module, and the lock entries made from them. */
  ghost predicate Locked(declared: seq<Dependency>, resolved: seq<Dependency>) {
    && |declared| == |resolved|
    && Clean(resolved)
    && (forall i :: 0 <= i < |declared| ==>
          UpdateResolves(declared[i], resolved[i]) && declared[i].moduleName == declared[i].name)
    && (forall i, j :: 0 <= i < j < |declared| ==> declared[i].name != declared[j].name)
  }

  /** A registry dependency whose identifier is taken again by a later declaration. */
  predicate Shadowed(declared: seq<Dependency>, i: nat, upper: Upper)
    requires i < |declared|
  {
    !IsFixedKind(declared[i].kind) &&
    exists j :: i < j < |declared| && Identifier(declared[j].name, upper) == Identifier(declared[i].name, upper)
  }

  predicate NoneShadowed(declared: seq<Dependency>, upper: Upper) {
    forall i :: 0 <= i < |declared| ==> !Shadowed(declared, i, upper)
  }

  lemma IdsKept(deps: seq<Dependency>, upper: Upper)
    ensures LockedNames(LockVariables(deps, upper)) == Names(deps)
  {
    NoIds(deps, upper);
    AssignKeeps(map[IDS := List(Names(deps))], AllSets(deps, upper), IDS);
  }

  lemma {:induction false} NoIds(deps: seq<Dependency>, upper: Upper)
    ensures forall i :: 0 <= i < |AllSets(deps, upper)| ==> AllSets(deps, upper)[i].name != IDS
  {
    if deps != [] {
      hide Variable, Identifier, Properties;
      var sets := DependencySets(deps[0], upper);
      NoIds(deps[1..], upper);
      forall i | 0 <= i < |sets| ensures sets[i].name != IDS {
        VariableIsWord(Identifier(deps[0].name, upper), Properties(deps[0])[i].0);
      }
      hide DependencySets;
    }
  }

  lemma WrittenText(deps: seq<Dependency>, j: nat, k: nat, p: Property, text: string, upper: Upper)
    requires j < |deps| && Writes(deps[j], k, p, Scalar(text))
    requires forall i :: j < i < |deps| ==> Identifier(deps[i].name, upper) != Identifier(deps[j].name, upper)
    ensures TextOf(LockVariables(deps, upper), Identifier(deps[j].name, upper), p) == Some(text)
  {
    LastWins(deps, j, k, p, Scalar(text), upper);
  }

  lemma PropertiesDistinct(d: Dependency)
    ensures forall i, j :: 0 <= i < j < |Properties(d)| ==> Properties(d)[i].0 != Properties(d)[j].0
  {}

  lemma PropertyValues(d: Dependency)
    ensures |Properties(d)| >= 10
    ensures Properties(d)[0] == (Kind, Scalar(d.kind)) && Properties(d)[1] == (Owner, Scalar(d.owner))
    ensures Properties(d)[2] == (ModuleName, Scalar(d.moduleName)) && Properties(d)[3] == (RepoName, Scalar(d.repoName))
    ensures Properties(d)[4] == (Version, Scalar(d.version))
    ensures Properties(d)[5] == (DevDependency, Scalar(if d.devDependency then "TRUE" else "FALSE"))
    ensures Properties(d)[6] == (SourceUrl, Scalar(d.sourceUrl)) && Properties(d)[7] == (Urls, ListOrEmpty(d.urls))
    ensures Properties(d)[8] == (Sha256, Scalar(d.sha256)) && Properties(d)[9] == (StripPrefix, Scalar(d.stripPrefix))
  {}

  lemma LaterProperties(d: Dependency)
    ensures |Properties(d)| == if d.kind == "http_file" then 14 else 13
    ensures Properties(d)[10] == (BuildFile, Scalar(d.buildFile))
    ensures d.kind == "http_file" ==> Properties(d)[11] == (DownloadedFilePath, Scalar(d.downloadedFilePath))
    ensures var n := |Properties(d)|;
            Properties(d)[n - 2] == (Patches, ListOrEmpty(d.patches)) &&
            Properties(d)[n - 1] == (PatchArgs, ListOrEmpty(d.patchArgs))
  {}

  lemma WritesAt(d: Dependency, k: nat)
    requires k < |Properties(d)|
    ensures Writes(d, k, Properties(d)[k].0, Properties(d)[k].1)
  {
    PropertiesDistinct(d);
    hide Properties;
  }

  /** A dependency that no later one shadows finds a scalar property in the lock. */
  lemma OwnText(resolved: seq<Dependency>, j: nat, k: nat, upper: Upper)
    requires j < |resolved| && k < |Properties(resolved[j])| && Properties(resolved[j])[k].1.Scalar?
    requires forall i :: j < i < |resolved| ==>
             Identifier(resolved[i].name, upper) != Identifier(resolved[j].name, upper)
    ensures var (p, v) := Properties(resolved[j])[k];
            TextOf(LockVariables(resolved, upper), Identifier(resolved[j].name, upper), p) == Some(v.text)
  {
    hide Properties, LockVariables, TextOf, Identifier, Writes;
    WritesAt(resolved[j], k);
    WrittenText(resolved, j, k, Properties(resolved[j])[k].0, Properties(resolved[j])[k].1.text, upper);
  }

  lemma OwnItems(resolved: seq<Dependency>, j: nat, k: nat, p: Property, items: seq<string>, upper: Upper)
    requires j < |resolved| && k < |Properties(resolved[j])| && Properties(resolved[j])[k] == (p, ListOrEmpty(items))
    requires forall i :: j < i < |resolved| ==>
             Identifier(resolved[i].name, upper) != Identifier(resolved[j].name, upper)
    ensures ItemsOf(LockVariables(resolved, upper), Identifier(resolved[j].name, upper), p) == items
  {
    hide Properties, LockVariables, Identifier, Writes, Variable;
    WritesAt(resolved[j], k);
    LastWins(resolved, j, k, p, ListOrEmpty(items), upper);
  }

  /** So do the properties that only CMake reads. */
  lemma OwnBuildProperties(resolved: seq<Dependency>, j: nat, upper: Upper)
    requires j < |resolved|
    requires forall i :: j < i < |resolved| ==>
             Identifier(resolved[i].name, upper) != Identifier(resolved[j].name, upper)
    ensures var v, identifier, r := LockVariables(resolved, upper), Identifier(resolved[j].name, upper), resolved[j];
            && TextOf(v, identifier, BuildFile) == Some(r.buildFile)
            && (r.kind == "http_file" ==> TextOf(v, identifier, DownloadedFilePath) == Some(r.downloadedFilePath))
            && ItemsOf(v, identifier, Patches) == r.patches && ItemsOf(v, identifier, PatchArgs) == r.patchArgs
  {
    hide TextOf, ItemsOf, LockVariables, Identifier, Properties, ListOrEmpty;
    var r := resolved[j];
    LaterProperties(r);
    var n := |Properties(r)|;
    OwnText(resolved, j, 10, upper);
    if r.kind == "http_file" { OwnText(resolved, j, 11, upper); }
    OwnItems(resolved, j, n - 2, Patches, r.patches, upper);
    OwnItems(resolved, j, n - 1, PatchArgs, r.patchArgs, upper);
  }

  /** The last dependency with its identifier finds its own properties in the lock. */
  lemma OwnProperties(resolved: seq<Dependency>, j: nat, upper: Upper)
    requires j < |resolved|
    requires forall i :: j < i < |resolved| ==>
             Identifier(resolved[i].name, upper) != Identifier(resolved[j].name, upper)
    ensures var v, identifier, r := LockVariables(resolved, upper), Identifier(resolved[j].name, upper), resolved[j];
            && IdentityMatches(r, v, identifier)
            && TextOf(v, identifier, Sha256) == Some(r.sha256)
            && TextOf(v, identifier, StripPrefix) == Some(r.stripPrefix)
            && TextOf(v, identifier, SourceUrl) == Some(r.sourceUrl)
            && ItemsOf(v, identifier, Urls) == r.urls
  {
    hide TextOf, ItemsOf, LockVariables, Identifier, Properties, Writes;
    var r := resolved[j];
    PropertyValues(r);
    OwnText(resolved, j, 0, upper);
    OwnText(resolved, j, 1, upper);
    OwnText(resolved, j, 2, upper);
    OwnText(resolved, j, 3, upper);
    OwnText(resolved, j, 4, upper);
    OwnText(resolved, j, 5, upper);
    OwnText(resolved, j, 6, upper);
    OwnText(resolved, j, 8, upper);
    OwnText(resolved, j, 9, upper);
    OwnItems(resolved, j, 7, Urls, r.urls, upper);
  }

  // ----- Any declarations against any lock -----

  /** The last entry of a lock that takes an identifier. */
  function Holder(resolved: seq<Dependency>, identifier: string, upper: Upper): (j: Option<nat>)
    ensures j.Some? ==> j.value < |resolved| && Identifier(resolved[j.value].name, upper) == identifier
    ensures forall i :: (if j.Some? then j.value + 1 else 0) <= i < |resolved| ==>
              Identifier(resolved[i].name, upper) != identifier
  {
    if resolved == [] then None
    else
      var n := |resolved| - 1;
      if Identifier(resolved[n].name, upper) == identifier then Some(n)
      else Holder(resolved[..n], identifier, upper)
  }

  ghost predicate SameIdentity(d: Dependency, r: Dependency) {
    && d.kind == r.kind && d.owner == r.owner && d.moduleName == r.moduleName && d.repoName == r.repoName
    && d.version == r.version && d.devDependency == r.devDependency
  }

  /** A declaration passes if it brings its own source, or the entry that holds its identifier was locked for the
      same kind, owner, module, repository, version and dev flag, with a usable source. */
  ghost predicate Accepts(d: Dependency, resolved: seq<Dependency>, upper: Upper) {
    || d.kind == "http_archive" || d.kind == "http_file" || d.kind == "rocm_repository"
    || (&& d.kind == "bazel_dep" && (exists i :: 0 <= i < |resolved| && resolved[i].name == d.name)
        && var j := Holder(resolved, Identifier(d.name, upper), upper);
           && j.Some? && SameIdentity(d, resolved[j.value])
           && resolved[j.value].urls != [] && IsSha256(resolved[j.value].sha256))
  }

  ghost function Refreshed(d: Dependency, resolved: seq<Dependency>, upper: Upper): Dependency {
    var j := Holder(resolved, Identifier(d.name, upper), upper);
    if d.kind != "bazel_dep" || j.None? then d
    else
      var r := resolved[j.value];
      d.(urls := r.urls, sha256 := r.sha256, stripPrefix := r.stripPrefix, sourceUrl := r.sourceUrl)
  }

  /** Check mode on one declaration, whatever was locked. */
  lemma CheckDependency(d: Dependency, resolved: seq<Dependency>, upper: Upper)
    ensures ResolveForCheck(d, LockVariables(resolved, upper), upper) ==
            if Accepts(d, resolved, upper) then Some(Refreshed(d, resolved, upper)) else None
  {
    hide TextOf, ItemsOf, LockVariables, Identifier, LockedNames;
    if !IsFixedKind(d.kind) {
      IdsKept(resolved, upper);
      NamesHold(resolved, d.name);
      var j := Holder(resolved, Identifier(d.name, upper), upper);
      if j.Some? {
        OwnProperties(resolved, j.value, upper);
        DevTexts();
      }
    }
  }

  lemma DevTexts()
    ensures "TRUE" != "FALSE"
  {
    assert "TRUE"[0] != "FALSE"[0];
  }

  lemma NamesHold(deps: seq<Dependency>, name: string)
    ensures name in Names(deps) <==> exists i :: 0 <= i < |deps| && deps[i].name == name
  {
    if i :| 0 <= i < |deps| && deps[i].name == name {
      assert Names(deps)[i] == name;
    }
  }

  lemma {:induction false} CheckEvery(declared: seq<Dependency>, resolved: seq<Dependency>, upper: Upper)
    ensures var r := ResolveAll(declared, LockVariables(resolved, upper), upper);
            && (r.Some? <==> forall i :: 0 <= i < |declared| ==> Accepts(declared[i], resolved, upper))
            && (r.Some? ==>
                  && |r.value| == |declared|
                  && forall i :: 0 <= i < |declared| ==> r.value[i] == Refreshed(declared[i], resolved, upper))
  {
    hide ResolveForCheck, LockVariables, Accepts, Refreshed;
    if declared != [] {
      var n := |declared| - 1;
      CheckEvery(declared[..n], resolved, upper);
      CheckDependency(declared[n], resolved, upper);
      assert forall i :: 0 <= i < n ==> declared[..n][i] == declared[i];
    }
  }

  /** Any declarations against any lock file: the check succeeds exactly when each of them is accepted, and then
      takes every source from the lock. */
  lemma CheckAgainstLock(preamble: seq<string>, declared: seq<Dependency>, resolved: seq<Dependency>, upper: Upper)
    requires IsPreamble(preamble) && Clean(resolved)
    ensures var r := CheckAgainst(declared, LockFile(preamble, resolved, upper), upper);
            && (r.Some? <==> forall i :: 0 <= i < |declared| ==> Accepts(declared[i], resolved, upper))
            && (r.Some? ==>
                  && |r.value| == |declared|
                  && forall i :: 0 <= i < |declared| ==> r.value[i] == Refreshed(declared[i], resolved, upper))
  {
    hide *;
    LockSplits(preamble, resolved, upper);
    ParseLockLines(preamble, resolved, upper);
    CheckUnfold(declared, LockFile(preamble, resolved, upper), upper);
    CheckEvery(declared, resolved, upper);
  }

  /** A stale lock is noticed: a registry dependency whose version was raised fails. */
  lemma StaleVersionRejected(preamble: seq<string>, declared: seq<Dependency>, resolved: seq<Dependency>, upper: Upper,
                             i: nat, j: nat)
    requires IsPreamble(preamble) && Clean(resolved) && i < |declared| && j < |resolved|
    requires declared[i].kind == "bazel_dep" && Holder(resolved, Identifier(declared[i].name, upper), upper) == Some(j)
    requires declared[i].version != resolved[j].version
    ensures CheckAgainst(declared, LockFile(preamble, resolved, upper), upper) == None
  {
    hide CheckAgainst, LockFile, Identifier, Clean, IsPreamble;
    CheckAgainstLock(preamble, declared, resolved, upper);
    NotFixed(declared[i]);
    assert !Accepts(declared[i], resolved, upper);
  }

  lemma NotFixed(d: Dependency)
    requires d.kind == "bazel_dep"
    ensures d.kind != "http_archive" && d.kind != "http_file" && d.kind != "rocm_repository"
  {
    assert |d.kind| == 9;
    assert d.kind[0] == 'b' && "http_file"[0] == 'h';
  }

  lemma CheckOne(declared: seq<Dependency>, resolved: seq<Dependency>, i: nat, upper: Upper)
    requires Locked(declared, resolved) && i < |declared|
    ensures ResolveForCheck(declared[i], LockVariables(resolved, upper), upper) ==
            if Shadowed(declared, i, upper) then None else Some(resolved[i])
  {
    hide TextOf, ItemsOf, LockVariables, Identifier, LockedNames;
    var d, r := declared[i], resolved[i];
    assert UpdateResolves(d, r);
    if !IsFixedKind(d.kind) {
      assert forall k :: 0 <= k < |declared| ==> declared[k].name == resolved[k].name;
      IdsKept(resolved, upper);
      assert Names(resolved)[i] == d.name;
      if Shadowed(declared, i, upper) {
        ShadowedFails(declared, resolved, i, upper);
      } else {
        OwnProperties(resolved, i, upper);
      }
    }
  }

  /** The last declaration that takes an identifier. */
  lemma LastWith(declared: seq<Dependency>, i: nat, upper: Upper) returns (last: nat)
    requires i < |declared| && Shadowed(declared, i, upper)
    ensures i < last < |declared| && Identifier(declared[last].name, upper) == Identifier(declared[i].name, upper)
    ensures forall m :: last < m < |declared| ==>
            Identifier(declared[m].name, upper) != Identifier(declared[i].name, upper)
  {
    var j :| i < j < |declared| && Identifier(declared[j].name, upper) == Identifier(declared[i].name, upper);
    hide Identifier, Shadowed;
    last := j;
    var k := j + 1;
    while k < |declared|
      invariant j <= last < k <= |declared|
      invariant Identifier(declared[last].name, upper) == Identifier(declared[i].name, upper)
      invariant forall m :: last < m < k ==> Identifier(declared[m].name, upper) != Identifier(declared[i].name, upper)
    {
      if Identifier(declared[k].name, upper) == Identifier(declared[i].name, upper) { last := k; }
      k := k + 1;
    }
  }

  lemma LockedNameOf(declared: seq<Dependency>, resolved: seq<Dependency>, i: nat)
    requires Locked(declared, resolved) && i < |declared|
    ensures resolved[i].name == declared[i].name == declared[i].moduleName == resolved[i].moduleName
  {
    assert UpdateResolves(declared[i], resolved[i]);
  }

  /** A shadowed registry dependency meets the module name of the one that shadows it. */
  lemma ShadowedFails(declared: seq<Dependency>, resolved: seq<Dependency>, i: nat, upper: Upper)
    requires Locked(declared, resolved) && i < |declared| && Shadowed(declared, i, upper)
    ensures !IdentityMatches(declared[i], LockVariables(resolved, upper), Identifier(declared[i].name, upper))
  {
    var last := LastWith(declared, i, upper);
    assert declared[i].name != declared[last].name;
    forall k | 0 <= k < |declared| ensures declared[k].name == resolved[k].name { LockedNameOf(declared, resolved, k); }
    LockedNameOf(declared, resolved, i);
    LockedNameOf(declared, resolved, last);
    LockedLengths(declared, resolved);
    hide TextOf, LockVariables, Identifier, Locked, Properties, Shadowed;
    PropertyValues(resolved[last]);
    OwnText(resolved, last, 2, upper);
  }

  lemma {:induction false} CheckPrefix(declared: seq<Dependency>, resolved: seq<Dependency>, k: nat, upper: Upper)
    requires Locked(declared, resolved) && k <= |declared|
    ensures ResolveAll(declared[..k], LockVariables(resolved, upper), upper) ==
            if forall i :: 0 <= i < k ==> !Shadowed(declared, i, upper) then Some(resolved[..k]) else None
  {
    hide ResolveForCheck, LockVariables, Shadowed, Locked;
    if k > 0 {
      CheckPrefix(declared, resolved, k - 1, upper);
      CheckOne(declared, resolved, k - 1, upper);
      LockedLengths(declared, resolved);
      assert declared[..k][..k - 1] == declared[..k - 1] && resolved[..k - 1] + [resolved[k - 1]] == resolved[..k];
    } else {
      assert declared[..0] == [] && resolved[..0] == [];
    }
  }

  lemma LockedLengths(declared: seq<Dependency>, resolved: seq<Dependency>)
    requires Locked(declared, resolved)
    ensures |declared| == |resolved| && Clean(resolved)
  {}

  /**
   The lock is a fixpoint of the offline check exactly when no registry dependency shares its
   CMake identifier with a later declaration; then re-rendering reproduces the file.
   */
  lemma LockFixpoint(preamble: seq<string>, declared: seq<Dependency>, resolved: seq<Dependency>, upper: Upper)
    requires IsPreamble(preamble) && Locked(declared, resolved)
    ensures CheckAgainst(declared, LockFile(preamble, resolved, upper), upper) ==
            if NoneShadowed(declared, upper) then Some(resolved) else None
  {
    hide *;
    LockedLengths(declared, resolved);
    LockSplits(preamble, resolved, upper);
    ParseLockLines(preamble, resolved, upper);
    CheckPrefix(declared, resolved, |declared|, upper);
    CheckUnfold(declared, LockFile(preamble, resolved, upper), upper);
    NoneShadowedUnfold(declared, upper);
    assert declared[..|declared|] == declared && resolved[..|declared|] == resolved;
  }

  lemma CheckUnfold(declared: seq<Dependency>, text: string, upper: Upper)
    ensures var r := ParseSets(SplitLines(text), map[]);
            r.Some? ==> CheckAgainst(declared, text, upper) == ResolveAll(declared, r.value, upper)
  {}

  lemma NoneShadowedUnfold(declared: seq<Dependency>, upper: Upper)
    ensures NoneShadowed(declared, upper) <==> forall i :: 0 <= i < |declared| ==> !Shadowed(declared, i, upper)
  {}

  /** Two names that differ only in punctuation: a registry dependency declared first fails its own lock. */
  lemma PunctuationRejected(preamble: seq<string>, declared: seq<Dependency>, resolved: seq<Dependency>, upper: Upper,
                            i: nat, j: nat, a: string, b: string)
    requires upper('-') == "-" && upper('_') == "_"
    requires IsPreamble(preamble) && Locked(declared, resolved)
    requires i < j < |declared| && declared[i].kind == "bazel_dep"
    requires declared[i].name == a + "-" + b && declared[j].name == a + "_" + b
    ensures CheckAgainst(declared, LockFile(preamble, resolved, upper), upper) == None
  {
    IdentifierConcat(a + "-", b, upper);
    IdentifierConcat(a, "-", upper);
    IdentifierConcat(a + "_", b, upper);
    IdentifierConcat(a, "_", upper);
    assert Identifier("-", upper) == "_" == Identifier("_", upper) by {
      assert "-"[1..] == "" && "_"[1..] == "" && UpperCase("", upper) == "";
      assert UpperCase("-", upper) == "-" && UpperCase("_", upper) == "_";
    }
    hide Identifier;
    assert Shadowed(declared, i, upper);
    hide Shadowed, CheckAgainst, LockFile, Locked;
    LockFixpoint(preamble, declared, resolved, upper);
  }

  lemma IdentifierConcat(a: string, b: string, upper: Upper)
    ensures Identifier(a + b, upper) == Identifier(a, upper) + Identifier(b, upper)
  {
    UpperConcat(a, b, upper);
    SanitizedConcat(UpperCase(a, upper), UpperCase(b, upper));
  }

  lemma {:induction false} UpperConcat(a: string, b: string, upper: Upper)
    ensures UpperCase(a + b, upper) == UpperCase(a, upper) + UpperCase(b, upper)
  {
    if a == [] {
      assert a + b == b;
    } else {
      assert (a + b)[1..] == a[1..] + b;
      UpperConcat(a[1..], b, upper);
    }
  }

  lemma {:induction false} SanitizedConcat(a: string, b: string)
    ensures Sanitized(a + b) == Sanitized(a) + Sanitized(b)
  {
    if a == [] {
      assert a + b == b;
    } else {
      assert (a + b)[1..] == a[1..] + b;
      SanitizedConcat(a[1..], b);
    }
  }
}
