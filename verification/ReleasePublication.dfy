/**
 Publishing a release (build_tools/ci/loom_release.py): a draft is created, completed, compared
 with the expected assets, and only then made public. Every remote call may fail before or after
 it takes effect, and every transfer may leave a damaged record behind.
 */
module ReleasePublication {
  import opened Optional

  datatype Asset = Asset(name: string, uploaded: bool, digest: string)

  datatype Release = Release(
    id: int,
    tag: string,
    title: string,
    prerelease: bool,
    draft: bool,
    immutable: bool,
    body: string,
    assets: seq<Asset>)

  /** A file to publish and its digest. */
  datatype File = File(name: string, digest: string)

  /** What one run of the publisher was asked to publish. `validBody` is what it accepts as the text
      of a release that is already public. The files come from a dictionary keyed by name. */
  datatype Attempt = Attempt(
    tag: string,
    title: string,
    prerelease: bool,
    body: string,
    validBody: string -> bool,
    files: seq<File>)

  const PAGE_SIZE: nat := 100

  /** What the service reports for a complete upload of a file. */
  function Record(f: File): Asset {
    Asset(f.name, true, "sha256:" + f.digest)
  }

  function Records(files: seq<File>): seq<Asset> {
    seq(|files|, i requires 0 <= i < |files| => Record(files[i]))
  }

  // ----- Inventory -----

  ghost predicate DistinctFiles(files: seq<File>) {
    forall i, j :: 0 <= i < j < |files| ==> files[i].name != files[j].name
  }

  ghost predicate DistinctNames(assets: seq<Asset>) {
    forall i, j :: 0 <= i < j < |assets| ==> assets[i].name != assets[j].name
  }

  ghost predicate Expects(files: seq<File>, a: Asset) {
    exists f :: f in files && Record(f) == a
  }

  /** Nothing repeated, unexpected, incomplete or different. */
  ghost predicate Consistent(assets: seq<Asset>, files: seq<File>) {
    DistinctNames(assets) && forall i :: 0 <= i < |assets| ==> Expects(files, assets[i])
  }

  /** The release holds exactly the expected files with their digests. */
  ghost predicate Exact(assets: seq<Asset>, files: seq<File>) {
    Consistent(assets, files) && forall f :: f in files ==> Record(f) in assets
  }

  function Names(assets: seq<Asset>): set<string> {
    set a | a in assets :: a.name
  }

  function Absent(files: seq<File>, names: set<string>): (r: seq<File>)
    ensures forall f :: f in r <==> f in files && f.name !in names
  {
    if files == [] then []
    else
      var rest := Absent(files[1..], names);
      assert files == [files[0]] + files[1..];
      if files[0].name in names then rest else [files[0]] + rest
  }

  lemma AbsentDistinct(files: seq<File>, names: set<string>)
    requires DistinctFiles(files)
    ensures DistinctFiles(Absent(files, names))
  {
    if files != [] {
      var first, tail := files[0], files[1..];
      AbsentDistinct(tail, names);
      var rest := Absent(tail, names);
      forall i | 0 <= i < |rest| ensures rest[i].name != first.name {
        assert rest[i] in rest;
        var k :| 0 <= k < |tail| && tail[k] == rest[i];
        assert files[k + 1] == tail[k];
      }
      assert Absent(files, names) == if first.name in names then rest else [first] + rest;
    }
  }

  function DigestOf(files: seq<File>, name: string): (r: Option<string>)
    ensures r.Some? ==> File(name, r.value) in files
    ensures r.None? ==> forall f :: f in files ==> f.name != name
  {
    if files == [] then None
    else
      assert files == [files[0]] + files[1..];
      if files[0].name == name then Some(files[0].digest) else DigestOf(files[1..], name)
  }

  lemma SameFile(files: seq<File>, f: File, g: File)
    requires DistinctFiles(files) && f in files && g in files && f.name == g.name
    ensures f == g
  {
    var i :| 0 <= i < |files| && files[i] == f;
    var j :| 0 <= j < |files| && files[j] == g;
    assert i == j;
  }

  lemma ExpectsIff(files: seq<File>, a: Asset)
    requires DistinctFiles(files)
    ensures Expects(files, a) <==>
            var d := DigestOf(files, a.name); d.Some? && a.uploaded && a.digest == "sha256:" + d.value
  {
    var d := DigestOf(files, a.name);
    if f :| f in files && Record(f) == a {
      SameFile(files, f, File(a.name, d.value));
    }
    if d.Some? && a.uploaded && a.digest == "sha256:" + d.value {
      assert Record(File(a.name, d.value)) == a;
    }
  }

  lemma NextRecord(assets: seq<Asset>, files: seq<File>, k: nat)
    requires k < |assets| && Consistent(assets[..k], files)
    ensures Consistent(assets[..k + 1], files) <==>
            assets[k].name !in Names(assets[..k]) && Expects(files, assets[k])
    ensures Consistent(assets, files) ==> Consistent(assets[..k + 1], files)
    ensures Names(assets[..k + 1]) == Names(assets[..k]) + {assets[k].name}
  {
    hide Expects;
    var before, after := assets[..k], assets[..k + 1];
    assert after == before + [assets[k]];
    assert forall i :: 0 <= i < k ==> after[i] == before[i] && before[i] in before;
    assert after[k] == assets[k];
  }

  lemma CompleteInventory(assets: seq<Asset>, files: seq<File>)
    requires DistinctFiles(files) && Consistent(assets, files)
    ensures Absent(files, Names(assets)) == [] <==> Exact(assets, files)
  {
    var absent := Absent(files, Names(assets));
    forall f | f in files ensures f !in absent <==> Record(f) in assets {
      if f !in absent {
        var a :| a in assets && a.name == f.name;
        assert Expects(files, a);
        var g :| g in files && Record(g) == a;
        SameFile(files, f, g);
      }
    }
    assert absent != [] ==> absent[0] in absent;
  }

  /** The records up to `n` belong, and `names` are theirs. */
  ghost predicate ReadTo(assets: seq<Asset>, files: seq<File>, n: nat, names: set<string>) {
    n <= |assets| && Consistent(assets[..n], files) && names == Names(assets[..n])
  }

  /** Reads one page; a record that does not belong is an error. */
  method ReadPage(assets: seq<Asset>, start: nat, end: nat, names: set<string>, files: seq<File>)
    returns (r: Option<set<string>>)
    requires DistinctFiles(files) && start <= end <= |assets| && ReadTo(assets, files, start, names)
    ensures r.None? ==> !Consistent(assets, files)
    ensures r.Some? ==> ReadTo(assets, files, end, r.value)
  {
    hide Expects, Consistent, Names, DistinctFiles;
    var all := names;
    for k := start to end
      invariant ReadTo(assets, files, k, all)
    {
      var record := assets[k];
      NextRecord(assets, files, k);
      ExpectsIff(files, record);
      if record.name in all {
        return None;
      }
      all := all + {record.name};
      var digest := DigestOf(files, record.name);
      if digest.None? {
        return None;
      }
      if !record.uploaded {
        return None;
      }
      if record.digest != "sha256:" + digest.value {
        return None;
      }
    }
    return Some(all);
  }

  /** Walks the inventory page by page. It fails exactly when a record does not belong, and
      otherwise answers the files still to be uploaded. */
  method MissingAssets(assets: seq<Asset>, files: seq<File>) returns (r: Option<seq<File>>)
    requires DistinctFiles(files)
    ensures r.None? <==> !Consistent(assets, files)
    ensures r.Some? ==> r.value == Absent(files, Names(assets))
    ensures r == Some([]) <==> Exact(assets, files)
  {
    hide ReadTo, DistinctFiles, Consistent, Names;
    NothingRead(assets, files);
    var names: set<string> := {};
    var page := 1;
    while true
      invariant page >= 1 && (page - 1) * PAGE_SIZE <= |assets|
      invariant ReadTo(assets, files, (page - 1) * PAGE_SIZE, names)
      decreases |assets| - (page - 1) * PAGE_SIZE
    {
      var start := (page - 1) * PAGE_SIZE;
      var end := if start + PAGE_SIZE <= |assets| then start + PAGE_SIZE else |assets|;
      var read := ReadPage(assets, start, end, names, files);
      if read.None? {
        return None;
      }
      names := read.value;
      if end - start < PAGE_SIZE {
        break;
      }
      page := page + 1;
    }
    AllRead(assets, files, names);
    CompleteInventory(assets, files);
    return Some(Absent(files, names));
  }

  lemma NothingRead(assets: seq<Asset>, files: seq<File>)
    ensures ReadTo(assets, files, 0, {})
  {}

  lemma AllRead(assets: seq<Asset>, files: seq<File>, names: set<string>)
    requires ReadTo(assets, files, |assets|, names)
    ensures Consistent(assets, files) && names == Names(assets)
  {
    assert assets[..|assets|] == assets;
  }

  /** Uploading what is missing completes a consistent draft. */
  lemma FillCompletes(assets: seq<Asset>, files: seq<File>)
    requires DistinctFiles(files) && Consistent(assets, files)
    ensures Exact(assets + Records(Absent(files, Names(assets))), files)
  {
    var names := Names(assets);
    var missing := Absent(files, names);
    var whole := assets + Records(missing);
    AbsentDistinct(files, names);
    FilledConsistent(assets, missing, files);
    forall f | f in files ensures Record(f) in whole {
      if f in missing {
        var i :| 0 <= i < |missing| && missing[i] == f;
        assert whole[|assets| + i] == Record(f);
      } else {
        CompletedEarlier(assets, files, f);
      }
    }
  }

  lemma FilledConsistent(assets: seq<Asset>, missing: seq<File>, files: seq<File>)
    requires Consistent(assets, files) && DistinctFiles(missing)
    requires forall f :: f in missing ==> f in files && f.name !in Names(assets)
    ensures Consistent(assets + Records(missing), files)
  {
    var whole := assets + Records(missing);
    forall i | 0 <= i < |whole| ensures Expects(files, whole[i]) {
      if i >= |assets| {
        var f := missing[i - |assets|];
        assert f in missing && whole[i] == Record(f);
      }
    }
    forall i, j | 0 <= i < j < |whole| ensures whole[i].name != whole[j].name {
      if j >= |assets| {
        assert missing[j - |assets|] in missing;
        assert i < |assets| ==> assets[i] in assets;
      }
    }
  }

  lemma CompletedEarlier(assets: seq<Asset>, files: seq<File>, f: File)
    requires DistinctFiles(files) && Consistent(assets, files) && f in files && f.name in Names(assets)
    ensures Record(f) in assets
  {
    var a :| a in assets && a.name == f.name;
    assert Expects(files, a);
    var g :| g in files && Record(g) == a;
    SameFile(files, f, g);
  }

  // ----- States -----

  /** The checks made on an existing release. A public one must be immutable. */
  predicate Acceptable(r: Release, a: Attempt, body: Option<string>) {
    && r.tag == a.tag && r.title == a.title && r.prerelease == a.prerelease
    && r.id > 0
    && (body.Some? ==> r.body == body.value)
    && (!r.draft ==> r.immutable)
  }

  predicate IsPublic(remote: Option<Release>) {
    remote.Some? && !remote.value.draft
  }

  /** The release shows what the attempt was asked to publish. */
  ghost predicate Shows(r: Release, a: Attempt) {
    && r.tag == a.tag && r.title == a.title && r.prerelease == a.prerelease && r.body == a.body
    && Exact(r.assets, a.files)
  }

  /** One attempt makes a release public only when it shows exactly what was asked, and never
      touches a public one. */
  ghost predicate SafeStep(before: Option<Release>, after: Option<Release>, a: Attempt) {
    && (IsPublic(before) ==> after == before)
    && (!IsPublic(before) && IsPublic(after) ==> Shows(after.value, a))
    && (before.Some? ==> after.Some? && after.value.id == before.value.id)
  }

  /** The release carries the attempt's tag, title and channel. */
  ghost predicate Carries(r: Release, a: Attempt) {
    r.tag == a.tag && r.title == a.title && r.prerelease == a.prerelease && r.id > 0
  }

  /** The states from which an undisturbed attempt ends with a release showing its files: none yet, a draft
      that can be completed, or a public release that is complete, immutable and validly described. */
  ghost predicate Ready(before: Option<Release>, a: Attempt) {
    match before
    case None => true
    case Some(r) =>
      && Carries(r, a)
      && if r.draft then r.body == a.body && Consistent(r.assets, a.files)
         else r.immutable && a.validBody(r.body) && Exact(r.assets, a.files)
  }

  datatype Outcome = Published | Rejected | Interrupted

  class Publisher {
    var remote: Option<Release>
    const immutableReleases: bool

    constructor (remote: Option<Release>, immutableReleases: bool)
      ensures this.remote == remote && this.immutableReleases == immutableReleases
    {
      this.remote, this.immutableReleases := remote, immutableReleases;
    }

    /** A read, or a check outside the release, that may fail. */
    method Reach() returns (ok: bool)
    {
      ok := *;
    }

    /** Uploads files to the draft one after another. A disturbed transfer may record nothing, or
        anything under the file's name, and may or may not be noticed. */
    method Upload(files: seq<File>) returns (ok: bool, disturbed: bool)
      requires remote.Some? && remote.value.draft
      modifies this`remote
      ensures remote.Some? && remote.value == old(remote.value).(assets := remote.value.assets)
      ensures old(remote.value.assets) <= remote.value.assets
      ensures !ok ==> disturbed
      ensures !disturbed ==> remote.value.assets == old(remote.value.assets) + Records(files)
    {
      ok, disturbed := true, false;
      for k := 0 to |files|
        invariant remote.Some? && remote.value == old(remote.value).(assets := remote.value.assets)
        invariant old(remote.value.assets) <= remote.value.assets
        invariant ok
        invariant !disturbed ==> remote.value.assets == old(remote.value.assets) + Records(files[..k])
      {
        var fine: bool := *;
        if fine {
          remote := Some(remote.value.(assets := remote.value.assets + [Record(files[k])]));
          assert Records(files[..k + 1]) == Records(files[..k]) + [Record(files[k])];
        } else {
          disturbed := true;
          var recorded: bool := *;
          var complete: bool := *;
          var digest: string := *;
          if recorded {
            remote := Some(remote.value.(assets := remote.value.assets + [Asset(files[k].name, complete, digest)]));
          }
          ok := *;
          if !ok {
            return;
          }
        }
      }
      assert files[..|files|] == files;
    }

    /** Creates the draft with all files. It can fail before the draft exists or during the uploads. */
    method CreateDraft(a: Attempt) returns (ok: bool, disturbed: bool)
      requires remote.None?
      modifies this`remote
      ensures !IsPublic(remote)
      ensures !ok ==> disturbed
      ensures ok ==> remote.Some?
      ensures !disturbed ==> Acceptable(remote.value, a, Some(a.body)) && remote.value.assets == Records(a.files)
    {
      var happened: bool := *;
      if !happened {
        return false, true;
      }
      var id :| id > 0;
      remote := Some(Release(id, a.tag, a.title, a.prerelease, true, false, a.body, []));
      ok, disturbed := Upload(a.files);
    }

    /** Removes the draft mark. The answer may be lost after the change. */
    method MakePublic() returns (ok: bool)
      requires remote.Some? && remote.value.draft
      modifies this`remote
      ensures remote == old(remote) ||
              remote == Some(old(remote.value).(draft := false, immutable := immutableReleases))
      ensures ok ==> IsPublic(remote)
    {
      var happened: bool := *;
      if happened {
        remote := Some(remote.value.(draft := false, immutable := immutableReleases));
      }
      var answered: bool := *;
      return happened && answered;
    }

    /** Reads the paged inventory; reading may break off at any page. */
    method ReadInventory(files: seq<File>) returns (read: bool, missing: Option<seq<File>>)
      requires DistinctFiles(files) && remote.Some?
      ensures read ==> (missing.None? <==> !Consistent(remote.value.assets, files))
      ensures read && missing.Some? ==> missing.value == Absent(files, Names(remote.value.assets))
      ensures read ==> (missing == Some([]) <==> Exact(remote.value.assets, files))
    {
      hide Exact, Consistent;
      read := Reach();
      missing := None;
      if read {
        missing := MissingAssets(remote.value.assets, files);
      }
    }

    /** One publication attempt. */
    method Publish(a: Attempt) returns (outcome: Outcome, disturbed: bool)
      requires DistinctFiles(a.files)
      modifies this`remote
      ensures SafeStep(old(remote), remote, a)
      ensures outcome.Published? ==> IsPublic(remote) && remote.value.immutable && Exact(remote.value.assets, a.files)
      ensures outcome.Published? ==>
                Carries(remote.value, a) && (remote.value.body == a.body || a.validBody(remote.value.body))
      ensures !disturbed && IsPublic(old(remote)) ==> (outcome.Published? <==> Ready(old(remote), a))
      ensures !disturbed && Ready(old(remote), a) ==> IsPublic(remote) && Exact(remote.value.assets, a.files)
      ensures !disturbed && Ready(old(remote), a) ==> outcome == if remote.value.immutable then Published else Rejected
      ensures !disturbed && !Ready(old(remote), a) ==> outcome.Rejected? && remote == old(remote)
    {
      hide Exact, Consistent;
      var found := Reach();
      var catalogued := Reach();
      if !found || !catalogued {
        return Interrupted, true;
      }
      if remote.Some? && !Acceptable(remote.value, a, None) {
        return Rejected, false;
      }
      if IsPublic(remote) {
        if !a.validBody(remote.value.body) {
          return Rejected, false;
        }
        var read, missing := ReadInventory(a.files);
        if !read {
          return Interrupted, true;
        }
        return if missing == Some([]) then Published else Rejected, false;
      }
      var described := Reach();
      if !described {
        return Interrupted, true;
      }
      disturbed := false;
      var created := remote.None?;
      if created {
        var ok;
        ok, disturbed := CreateDraft(a);
        var found := Reach();
        if !ok || !found {
          return Interrupted, true;
        }
        if !disturbed {
          FreshDraft(a.files);
        }
      }
      if !Acceptable(remote.value, a, Some(a.body)) {
        return Rejected, disturbed;
      }
      var later;
      outcome, later := Complete(a);
      disturbed := disturbed || later;
    }

    /** Fills in what the draft lacks, compares the inventory again, and publishes. */
    method Complete(a: Attempt) returns (outcome: Outcome, disturbed: bool)
      requires DistinctFiles(a.files) && remote.Some? && remote.value.draft
      requires Acceptable(remote.value, a, Some(a.body))
      modifies this`remote
      ensures remote.Some? && remote.value.id == old(remote.value.id)
      ensures IsPublic(remote) ==> Shows(remote.value, a)
      ensures outcome.Published? ==> IsPublic(remote) && remote.value.immutable && Carries(remote.value, a)
      ensures !disturbed && Consistent(old(remote.value.assets), a.files) ==>
                IsPublic(remote) && outcome == if remote.value.immutable then Published else Rejected
      ensures !disturbed && !Consistent(old(remote.value.assets), a.files) ==>
              outcome.Rejected? && remote == old(remote)
    {
      hide Exact, Consistent;
      disturbed := false;
      var read, missing := ReadInventory(a.files);
      if !read {
        return Interrupted, true;
      }
      if missing.None? {
        return Rejected, false;
      }
      if missing.value != [] {
        FillCompletes(remote.value.assets, a.files);
        var sent;
        sent, disturbed := Upload(missing.value);
        if !sent {
          return Interrupted, true;
        }
        read, missing := ReadInventory(a.files);
        if !read {
          return Interrupted, true;
        }
        if missing != Some([]) {
          return Rejected, disturbed;
        }
      }
      var published := MakePublic();
      var answered := Reach();
      if !published || !answered {
        return Interrupted, true;
      }
      return if Acceptable(remote.value, a, Some(a.body)) then Published else Rejected, disturbed;
    }

    /** Any run of attempts, whatever each of them met. `trace` is the remote state between them. */
    method PublishRun(attempts: seq<Attempt>) returns (outcomes: seq<Outcome>, ghost trace: seq<Option<Release>>)
      requires forall i :: 0 <= i < |attempts| ==> DistinctFiles(attempts[i].files)
      modifies this`remote
      ensures IsRun(trace, attempts) && trace[0] == old(remote) && trace[|attempts|] == remote
      ensures |outcomes| == |attempts|
      ensures forall i :: 0 <= i < |attempts| && outcomes[i].Published? ==>
                IsPublic(remote) && trace[i + 1] == remote && Exact(remote.value.assets, attempts[i].files)
    {
      hide Exact, DistinctFiles;
      outcomes := [];
      trace := [remote];
      for k := 0 to |attempts|
        invariant IsRun(trace, attempts[..k]) && trace[0] == old(remote) && trace[k] == remote
        invariant |outcomes| == k
        invariant forall i :: 0 <= i < k && outcomes[i].Published? ==>
                    IsPublic(remote) && trace[i + 1] == remote && Exact(remote.value.assets, attempts[i].files)
      {
        var outcome, _ := Publish(attempts[k]);
        assert attempts[..k + 1] == attempts[..k] + [attempts[k]];
        outcomes := outcomes + [outcome];
        trace := trace + [remote];
      }
      assert attempts[..|attempts|] == attempts;
    }
  }

  lemma FreshDraft(files: seq<File>)
    requires DistinctFiles(files)
    ensures Consistent(Records(files), files)
  {
    var records := Records(files);
    assert forall i :: 0 <= i < |files| ==> files[i] in files && records[i] == Record(files[i]);
  }

  ghost predicate IsRun(trace: seq<Option<Release>>, attempts: seq<Attempt>) {
    && |trace| == |attempts| + 1
    && forall i :: 0 <= i < |attempts| ==> SafeStep(trace[i], trace[i + 1], attempts[i])
  }

  /** Attempt `k` published, and nothing changed the release afterwards. */
  ghost predicate PublishedAt(trace: seq<Option<Release>>, attempts: seq<Attempt>, k: nat)
    requires |trace| == |attempts| + 1 && k < |attempts|
  {
    && !IsPublic(trace[k]) && IsPublic(trace[k + 1]) && Shows(trace[k + 1].value, attempts[k])
    && forall j :: k < j <= |attempts| ==> trace[j] == trace[k + 1]
  }

  /** If a run that starts unpublished ends public, one of its attempts published exactly what it
      was asked to, and the release stayed as that attempt left it. */
  lemma {:induction false} PublishedOnce(trace: seq<Option<Release>>, attempts: seq<Attempt>)
    requires IsRun(trace, attempts) && !IsPublic(trace[0]) && IsPublic(trace[|attempts|])
    ensures exists k :: 0 <= k < |attempts| && PublishedAt(trace, attempts, k)
    decreases |attempts|
  {
    hide Shows;
    var n := |attempts| - 1;
    assert SafeStep(trace[n], trace[n + 1], attempts[n]);
    if IsPublic(trace[n]) {
      var shorter, earlier := trace[..n + 1], attempts[..n];
      PublishedOnce(shorter, earlier);
      var k :| 0 <= k < n && PublishedAt(shorter, earlier, k);
      assert forall j :: k < j <= n ==> trace[j] == shorter[j];
      assert PublishedAt(trace, attempts, k);
    } else {
      assert PublishedAt(trace, attempts, n);
    }
  }
}
