/**
 Leasing the crash-dump registry keys: values are recorded before they are changed, and put
 back on exit, together with the keys that the lease itself created.
 */
module RegistryLease {
  import opened Optional
  import opened Sequences

  datatype Data = Data(text: string, kind: nat)

  type Values = map<string, Data>

  /** One executable's key: its values, and how many keys lie below it. */
  datatype Key = Key(values: Values, deeper: nat)

  /** The dump key, if it exists, with its own values and its per-executable subkeys. */
  datatype Registry = Registry(root: Option<Values>, keys: map<string, Key>)

  ghost predicate WellFormed(r: Registry) {
    r.root.None? ==> r.keys == map[]
  }

  const NO_KEY := Key(map[], 0)

  /** The values recorded for a leased key, in the order they were read. */
  datatype Saved = Saved(name: string, previous: Option<Data>)
  datatype Lease = Lease(executable: string, existed: bool, saved: seq<Saved>)

  datatype Setting = Setting(name: string, data: Data)

  function Lookup<T>(m: map<string, T>, k: string): Option<T> {
    if k in m then Some(m[k]) else None
  }

  function Original(entry: Registry, executable: string): Key {
    if executable in entry.keys then entry.keys[executable] else NO_KEY
  }

  ghost predicate IsSaved(saved: seq<Saved>, name: string) {
    exists i :: 0 <= i < |saved| && saved[i].name == name
  }

  /** What a lease knows suffices to put the key back: whatever differs was recorded first. */
  ghost predicate Recoverable(entry: Registry, now: Key, lease: Lease) {
    var original := Original(entry, lease.executable);
    && (lease.existed <==> lease.executable in entry.keys)
    && now.deeper == original.deeper
    && (forall i :: 0 <= i < |lease.saved| ==> lease.saved[i].previous == Lookup(original.values, lease.saved[i].name))
    && (forall n :: !IsSaved(lease.saved, n) ==> Lookup(now.values, n) == Lookup(original.values, n))
  }

  ghost predicate IsLeased(leases: seq<Lease>, executable: string) {
    exists i :: 0 <= i < |leases| && leases[i].executable == executable
  }

  ghost predicate DistinctLeases(leases: seq<Lease>) {
    forall i, j :: 0 <= i < j < |leases| ==> leases[i].executable != leases[j].executable
  }

  /** The leased keys are recoverable and everything else is as it was on entry. */
  ghost predicate Held(entry: Registry, now: Registry, leases: seq<Lease>) {
    && DistinctLeases(leases)
    && (forall i :: 0 <= i < |leases| ==>
          leases[i].executable in now.keys && Recoverable(entry, now.keys[leases[i].executable], leases[i]))
    && (forall e :: !IsLeased(leases, e) ==> Lookup(now.keys, e) == Lookup(entry.keys, e))
    && now.root == if entry.root.None? && leases != [] then Some(map[]) else entry.root
  }

  /** How the root was found: a lease that created it knows so. */
  ghost predicate RootNoted(entry: Registry, leases: seq<Lease>, rootExisted: bool) {
    && (!rootExisted ==> entry.root.None?)
    && (leases != [] ==> (rootExisted <==> entry.root.Some?))
  }

  function ApplySettings(values: Values, settings: seq<Setting>): Values {
    if settings == [] then values
    else
      var last := settings[|settings| - 1];
      ApplySettings(values, settings[..|settings| - 1])[last.name := last.data]
  }

  /** The values found on entry, overridden by the settings. */
  ghost predicate HasSettings(entry: Registry, now: Registry, executable: string, settings: seq<Setting>) {
    && executable in now.keys
    && now.keys[executable].values == ApplySettings(Original(entry, executable).values, settings)
  }

  ghost predicate OthersKept(before: Registry, now: Registry, executable: string) {
    forall e :: e != executable ==> Lookup(now.keys, e) == Lookup(before.keys, e)
  }

  lemma KeepSettings(entry: Registry, before: Registry, now: Registry, executable: string, other: string,
                     settings: seq<Setting>)
    requires OthersKept(before, now, executable) && other != executable && HasSettings(entry, before, other, settings)
    ensures HasSettings(entry, now, other, settings)
  {
    assert Lookup(now.keys, other) == Lookup(before.keys, other);
  }

  /** Every setting is in force, and nothing else changed. */
  lemma {:induction false} SettingsInForce(values: Values, settings: seq<Setting>, n: string)
    requires forall i, j :: 0 <= i < j < |settings| ==> settings[i].name != settings[j].name
    ensures forall i :: 0 <= i < |settings| ==>
            Lookup(ApplySettings(values, settings), settings[i].name) == Some(settings[i].data)
    ensures (forall i :: 0 <= i < |settings| ==> settings[i].name != n) ==>
              Lookup(ApplySettings(values, settings), n) == Lookup(values, n)
  {
    if settings != [] {
      var init := settings[..|settings| - 1];
      SettingsInForce(values, init, n);
      assert forall i :: 0 <= i < |init| ==> init[i] == settings[i];
    }
  }

  /** The calls one key takes: open, create if it is missing, and read and write each value. */
  function KeyCalls(keys: map<string, Key>, executable: string, settings: seq<Setting>): nat {
    (if executable in keys then 1 else 2) + 2 * |settings|
  }

  function AllCalls(keys: map<string, Key>, executables: seq<string>, settings: seq<Setting>): nat {
    if executables == [] then 0
    else AllCalls(keys, executables[..|executables| - 1], settings) +
         KeyCalls(keys, executables[|executables| - 1], settings)
  }

  lemma {:induction false} CallsGrow(keys: map<string, Key>, executables: seq<string>, settings: seq<Setting>, k: nat)
    requires k < |executables|
    ensures AllCalls(keys, executables[..k], settings) + KeyCalls(keys, executables[k], settings) <=
            AllCalls(keys, executables, settings)
  {
    hide KeyCalls;
    if k < |executables| - 1 {
      var init := executables[..|executables| - 1];
      CallsGrow(keys, init, settings, k);
      assert init[..k] == executables[..k];
    }
  }

  lemma SameCalls(a: map<string, Key>, b: map<string, Key>, executable: string, settings: seq<Setting>)
    requires Lookup(a, executable) == Lookup(b, executable)
    ensures KeyCalls(a, executable, settings) == KeyCalls(b, executable, settings)
  {}

  lemma CallsStep(keys: map<string, Key>, executables: seq<string>, settings: seq<Setting>, k: nat)
    requires k < |executables|
    ensures AllCalls(keys, executables[..k + 1], settings) ==
            AllCalls(keys, executables[..k], settings) + KeyCalls(keys, executables[k], settings)
    ensures AllCalls(keys, executables[..k + 1], settings) <= AllCalls(keys, executables, settings)
  {
    hide KeyCalls;
    CallsGrow(keys, executables, settings, k);
    assert executables[..k + 1][..k] == executables[..k];
  }

  lemma NoCalls(keys: map<string, Key>, executables: seq<string>, settings: seq<Setting>)
    ensures AllCalls(keys, executables[..0], settings) == 0
  {}

  class Session {
    var registry: Registry
    var leases: seq<Lease>
    var rootExisted: bool
    var budget: nat

    constructor (registry: Registry, budget: nat)
      requires WellFormed(registry)
      ensures this.registry == registry && this.budget == budget && leases == [] && rootExisted
    {
      this.registry, this.budget, leases, rootExisted := registry, budget, [], true;
    }

    /** One registry call: it fails, without effect, once the budget of successful calls is spent. */
    method Call() returns (ok: bool)
      modifies this`budget
      ensures ok <==> old(budget) > 0
      ensures budget == if ok then old(budget) - 1 else 0
    {
      ok := budget > 0;
      if ok { budget := budget - 1; }
    }

    /** Leases every key in turn; whichever call fails, what was changed is recoverable. */
    method SetUp(executables: seq<string>, settings: seq<Setting>) returns (enabled: bool)
      requires WellFormed(registry) && leases == [] && rootExisted && Distinct(executables)
      modifies this
      ensures Held(old(registry), registry, leases) && RootNoted(old(registry), leases, rootExisted)
      ensures WellFormed(registry) && (forall i :: 0 <= i < |leases| ==> leases[i].executable in executables)
      ensures rootExisted <==> old(registry).root.Some? || old(budget) < 2
      ensures registry.root.Some? <==> old(registry).root.Some? || (old(budget) >= 4 && executables != [])
      ensures enabled ==> forall k :: 0 <= k < |executables| ==>
                IsLeased(leases, executables[k]) && HasSettings(old(registry), registry, executables[k], settings)
      ensures enabled <==> old(budget) >= 2 + AllCalls(old(registry).keys, executables, settings)
    {
      hide Recoverable, KeyCalls, AllCalls;
      NoCalls(registry.keys, executables, settings);
      ghost var entry := registry;
      enabled := false;
      var ok := Call();
      if !ok {
        return;
      }
      ok := Call();
      if !ok {
        return;
      }
      if registry.root.None? {
        rootExisted := false;
      }
      for k := 0 to |executables|
        invariant Held(entry, registry, leases) && RootNoted(entry, leases, rootExisted) && WellFormed(registry)
        invariant rootExisted <==> entry.root.Some?
        invariant old(budget) >= 2 && (k == 0 ==> budget == old(budget) - 2 && registry == entry)
        invariant k > 0 ==> registry.root.Some? && (entry.root.None? ==> old(budget) >= 4)
        invariant |leases| == k && forall i :: 0 <= i < k ==> leases[i].executable == executables[i]
        invariant forall i :: 0 <= i < k ==> HasSettings(entry, registry, executables[i], settings)
        invariant old(budget) == 2 + AllCalls(entry.keys, executables[..k], settings) + budget
      {
        ghost var before := registry;
        assert !IsLeased(leases, executables[k]);
        SameCalls(registry.keys, entry.keys, executables[k], settings);
        CallsStep(entry.keys, executables, settings, k);
        var done := LeaseKey(entry, executables[k], settings);
        forall i | 0 <= i < k ensures HasSettings(entry, registry, executables[i], settings) {
          KeepSettings(entry, before, registry, executables[k], executables[i], settings);
        }
        if !done {
          return;
        }
      }
      enabled := true;
      assert executables[..|executables|] == executables;
      assert forall k :: 0 <= k < |executables| ==> leases[k].executable == executables[k];
    }

    /** Opens or creates one key, records its values, then changes them. */
    method LeaseKey(ghost entry: Registry, executable: string, settings: seq<Setting>) returns (done: bool)
      requires Held(entry, registry, leases) && WellFormed(registry) && WellFormed(entry)
      requires !IsLeased(leases, executable) && (rootExisted <==> entry.root.Some?)
      modifies this
      ensures Held(entry, registry, leases) && RootNoted(entry, leases, rootExisted) && WellFormed(registry)
      ensures rootExisted == old(rootExisted)
      ensures leases == old(leases) || (|leases| == |old(leases)| + 1 && leases[..|old(leases)|] == old(leases) &&
                                        leases[|old(leases)|].executable == executable)
      ensures registry.root.Some? <==> old(registry).root.Some? || old(budget) >= 2
      ensures done ==> registry.root.Some? && |leases| == |old(leases)| + 1 && leases[..|old(leases)|] == old(leases) &&
                       leases[|old(leases)|].executable == executable
      ensures done ==> HasSettings(entry, registry, executable, settings)
      ensures OthersKept(old(registry), registry, executable)
      ensures done <==> old(budget) >= KeyCalls(old(registry).keys, executable, settings)
      ensures done ==> budget == old(budget) - KeyCalls(old(registry).keys, executable, settings)
    {
      hide Recoverable, Held, HasSettings;
      done := false;
      var ok := Call();
      if !ok {
        return;
      }
      var existed := executable in registry.keys;
      if !existed {
        ok := Call();
        if !ok {
          return;
        }
      }
      OpenKey(entry, registry, leases, executable, existed);
      var root := if registry.root.None? then Some(map[]) else registry.root;
      registry := Registry(root, if existed then registry.keys else registry.keys[executable := NO_KEY]);
      var front := leases;
      leases := front + [Lease(executable, existed, [])];
      var saved: seq<Saved> := [];
      for k := 0 to |settings|
        invariant leases == front + [Lease(executable, existed, saved)] && Held(entry, registry, leases)
        invariant WellFormed(registry) && rootExisted == old(rootExisted) && executable in registry.keys
        invariant registry.keys[executable] == Original(entry, executable) && registry.root.Some?
        invariant OthersKept(old(registry), registry, executable)
        invariant |saved| == k && forall i :: 0 <= i < k ==> saved[i].name == settings[i].name
        invariant old(budget) == budget + k + if existed then 1 else 2
      {
        ok := Call();
        if !ok {
          return;
        }
        var next := Saved(settings[k].name, Lookup(registry.keys[executable].values, settings[k].name));
        SaveValue(entry, registry, front, Lease(executable, existed, saved), next);
        saved := saved + [next];
        leases := front + [Lease(executable, existed, saved)];
      }
      done := ChangeValues(entry, front, Lease(executable, existed, saved), settings);
    }

    /** Sets the values of the key leased last, all of them recorded. */
    method ChangeValues(ghost entry: Registry, ghost front: seq<Lease>, lease: Lease, settings: seq<Setting>)
      returns (done: bool)
      requires leases == front + [lease] && Held(entry, registry, leases) && WellFormed(registry)
      requires lease.executable in registry.keys && registry.keys[lease.executable] == Original(entry, lease.executable)
      requires |lease.saved| == |settings| && forall i :: 0 <= i < |settings| ==>
               lease.saved[i].name == settings[i].name
      modifies this
      ensures leases == old(leases) && rootExisted == old(rootExisted) && registry.root == old(registry).root
      ensures Held(entry, registry, leases) && WellFormed(registry)
      ensures done ==> HasSettings(entry, registry, lease.executable, settings)
      ensures OthersKept(old(registry), registry, lease.executable)
      ensures done <==> old(budget) >= |settings|
      ensures done ==> budget == old(budget) - |settings|
    {
      hide Recoverable, Held;
      done := false;
      for k := 0 to |settings|
        invariant leases == old(leases) && rootExisted == old(rootExisted) && registry.root == old(registry).root
        invariant Held(entry, registry, leases) && WellFormed(registry)
        invariant HasSettings(entry, registry, lease.executable, settings[..k])
        invariant OthersKept(old(registry), registry, lease.executable)
        invariant budget == old(budget) - k
      {
        var ok := Call();
        if !ok {
          return;
        }
        var key := registry.keys[lease.executable];
        assert lease.saved[k].name == settings[k].name;
        assert settings[..k + 1] == settings[..k] + [settings[k]];
        SetValue(entry, registry, front, lease, settings[k]);
        key := key.(values := key.values[settings[k].name := settings[k].data]);
        registry := registry.(keys := registry.keys[lease.executable := key]);
      }
      assert settings[..|settings|] == settings;
      done := true;
    }

    /** Puts every leased key back, newest first, and removes the root if the lease created it. */
    method TearDown(ghost entry: Registry) returns (restored: bool)
      requires WellFormed(registry) && LeasedKeysHeld(entry, registry, leases)
      requires rootExisted || leases == [] || entry.root.None?
      modifies this
      ensures forall e ::
                Lookup(registry.keys, e) == Lookup(if IsLeased(leases, e) then entry.keys else old(registry).keys, e)
      ensures registry.root ==
              if !rootExisted && old(registry).root == Some(map[]) && registry.keys == map[] then None
              else old(registry).root
      ensures restored <==> rootExisted || old(registry).root.Some?
      ensures leases == old(leases) && rootExisted == old(rootExisted)
    {
      hide Recoverable, Restoring, IsLeased;
      ghost var body := registry;
      var k := |leases|;
      NothingRestored(entry.keys, body.keys);
      assert leases[k..] == [];
      while k > 0
        invariant 0 <= k <= |leases| && leases == old(leases) && rootExisted == old(rootExisted)
        invariant registry.root == body.root
        invariant Restoring(entry.keys, body.keys, registry.keys, leases[k..])
      {
        k := k - 1;
        var lease := leases[k];
        StillHeld(entry.keys, body.keys, registry.keys, leases, k);
        var key := registry.keys[lease.executable];
        var values := RestoreValues(key.values, lease.saved);
        RestoredKey(entry, key, lease);
        ghost var before := registry.keys;
        if !lease.existed && key.deeper == 0 && values == map[] {
          registry := registry.(keys := registry.keys - {lease.executable});
        } else {
          registry := registry.(keys := registry.keys[lease.executable := key.(values := values)]);
        }
        RestoreOne(entry.keys, body.keys, before, registry.keys, leases, k);
      }
      assert leases[0..] == leases;
      AllRestored(entry.keys, body.keys, registry.keys, leases);
      restored := true;
      if !rootExisted {
        if registry.root.None? {
          restored := false;
        } else if registry.keys == map[] && registry.root.value == map[] {
          registry := registry.(root := None);
        }
      }
    }

    /**
     Setup and restore around a body that leaves the executables' keys alone. Whichever setup call
     failed, those keys are as on entry and the others as the body left them; around a body that
     changes nothing, so is the whole registry. `held` is the registry the body finds.
     */
    method LeaseAndRestore(executables: seq<string>, settings: seq<Setting>, body: Registry -> Registry)
      returns (restored: bool, ghost held: Registry)
      requires WellFormed(registry) && leases == [] && rootExisted && Distinct(executables)
      requires LeavesAlone(body, executables)
      modifies this
      ensures forall e ::
                Lookup(registry.keys, e) == Lookup(if e in executables then old(registry).keys else body(held).keys, e)
      ensures registry.root ==
              var removed := !RootPresent(old(registry), old(budget)) && registry.keys == map[];
              if removed && body(held).root == Some(map[]) then None else body(held).root
      ensures body(held) == held ==> registry == old(registry)
      ensures restored <==> RootPresent(old(registry), old(budget)) || body(held).root.Some?
      ensures held.root.Some? <==> old(registry).root.Some? || (old(budget) >= 4 && executables != [])
    {
      hide Held, LeasedKeysHeld, IsLeased, Lookup;
      ghost var entry := registry;
      var enabled := SetUp(executables, settings);
      held := registry;
      HeldKeys(entry, held, leases);
      BodyKeeps(entry, held, body, leases, executables);
      registry := body(registry);
      restored := TearDown(entry);
      BodyLeaves(entry, held, body, registry.keys, leases, executables);
      if body(held) == held {
        SameRegistry(entry, held, registry, leases, rootExisted);
      }
    }
  }

  /** The body may change other keys, and the root's own values, in any consistent way. */
  ghost predicate LeavesAlone(body: Registry -> Registry, executables: seq<string>) {
    && (forall r :: WellFormed(r) ==> WellFormed(body(r)))
    && (forall r, e :: e in executables ==> Lookup(body(r).keys, e) == Lookup(r.keys, e))
  }

  /** What setup takes for an existing root: one that was there, or was never looked for. */
  predicate RootPresent(entry: Registry, budget: nat) {
    entry.root.Some? || budget < 2
  }

  lemma BodyKeeps(entry: Registry, held: Registry, body: Registry -> Registry, leases: seq<Lease>,
                  executables: seq<string>)
    requires LeasedKeysHeld(entry, held, leases) && LeavesAlone(body, executables)
    requires forall i :: 0 <= i < |leases| ==> leases[i].executable in executables
    ensures LeasedKeysHeld(entry, body(held), leases)
  {
    hide Recoverable;
    forall i | 0 <= i < |leases|
      ensures leases[i].executable in body(held).keys &&
              Recoverable(entry, body(held).keys[leases[i].executable], leases[i])
    {
      assert Lookup(body(held).keys, leases[i].executable) == Lookup(held.keys, leases[i].executable);
    }
  }

  lemma BodyLeaves(entry: Registry, held: Registry, body: Registry -> Registry, now: map<string, Key>,
                   leases: seq<Lease>, executables: seq<string>)
    requires Held(entry, held, leases) && LeavesAlone(body, executables)
    requires forall i :: 0 <= i < |leases| ==> leases[i].executable in executables
    requires forall e :: Lookup(now, e) == Lookup(if IsLeased(leases, e) then entry.keys else body(held).keys, e)
    ensures forall e :: Lookup(now, e) == Lookup(if e in executables then entry.keys else body(held).keys, e)
  {
    hide Recoverable, Lookup;
    forall e ensures Lookup(now, e) == Lookup(if e in executables then entry.keys else body(held).keys, e) {
      if e in executables && !IsLeased(leases, e) {
        assert Lookup(body(held).keys, e) == Lookup(held.keys, e);
      }
    }
  }

  /** The input that shows the misleading error: with the dump key missing and the first key not
      created, restoring reports an error although nothing was changed. */
  method MissingRootReported(executables: seq<string>, settings: seq<Setting>, budget: nat)
    returns (session: Session, restored: bool)
    requires Distinct(executables) && 2 <= budget < 4
    ensures fresh(session) && !restored && session.registry == Registry(None, map[])
  {
    session := new Session(Registry(None, map[]), budget);
    ghost var held;
    restored, held := session.LeaseAndRestore(executables, settings, r => r);
  }

  ghost predicate LeasedKeysHeld(entry: Registry, now: Registry, leases: seq<Lease>) {
    && DistinctLeases(leases)
    && forall i :: 0 <= i < |leases| ==>
         leases[i].executable in now.keys && Recoverable(entry, now.keys[leases[i].executable], leases[i])
  }

  /** The keys after the leases in `later` were restored. */
  ghost predicate Restoring(entry: map<string, Key>, body: map<string, Key>, now: map<string, Key>, later: seq<Lease>) {
    forall e :: Lookup(now, e) == Lookup(if IsLeased(later, e) then entry else body, e)
  }

  lemma NothingRestored(entry: map<string, Key>, body: map<string, Key>)
    ensures Restoring(entry, body, body, [])
  {}

  lemma AllRestored(entry: map<string, Key>, body: map<string, Key>, now: map<string, Key>, leases: seq<Lease>)
    requires Restoring(entry, body, now, leases)
    ensures forall e :: Lookup(now, e) == Lookup(if IsLeased(leases, e) then entry else body, e)
  {}

  lemma StillHeld(entry: map<string, Key>, body: map<string, Key>, now: map<string, Key>, leases: seq<Lease>, k: nat)
    requires DistinctLeases(leases) && k < |leases| && Restoring(entry, body, now, leases[k + 1..])
    ensures Lookup(now, leases[k].executable) == Lookup(body, leases[k].executable)
  {
    hide IsLeased;
    NotLater(leases, k);
  }

  lemma RestoreOne(entry: map<string, Key>, body: map<string, Key>, before: map<string, Key>, now: map<string, Key>,
                   leases: seq<Lease>, k: nat)
    requires k < |leases| && Restoring(entry, body, before, leases[k + 1..])
    requires Lookup(now, leases[k].executable) == Lookup(entry, leases[k].executable)
    requires forall e :: e != leases[k].executable ==> Lookup(now, e) == Lookup(before, e)
    ensures Restoring(entry, body, now, leases[k..])
  {
    hide Lookup;
    var these, later := leases[k..], leases[k + 1..];
    assert these == [leases[k]] + later;
    forall e ensures IsLeased(these, e) <==> e == leases[k].executable || IsLeased(later, e) {
      if e == leases[k].executable {
        assert these[0].executable == e;
      } else if i :| 0 <= i < |these| && these[i].executable == e {
        assert later[i - 1].executable == e;
      }
      if i :| 0 <= i < |later| && later[i].executable == e {
        assert these[i + 1].executable == e;
      }
    }
  }

  lemma HeldKeys(entry: Registry, now: Registry, leases: seq<Lease>)
    requires Held(entry, now, leases)
    ensures LeasedKeysHeld(entry, now, leases)
  {
    hide Recoverable;
  }

  lemma SameRegistry(entry: Registry, held: Registry, after: Registry, leases: seq<Lease>, rootExisted: bool)
    requires WellFormed(entry) && Held(entry, held, leases) && RootNoted(entry, leases, rootExisted)
    requires forall e :: Lookup(after.keys, e) == Lookup(if IsLeased(leases, e) then entry.keys else held.keys, e)
    requires after.root == if !rootExisted && held.root == Some(map[]) && after.keys == map[] then None else held.root
    ensures after == entry
  {
    hide Recoverable, IsLeased;
    forall e ensures Lookup(after.keys, e) == Lookup(entry.keys, e) {}
    SameMap(after.keys, entry.keys);
  }

  lemma SameMap<T>(a: map<string, T>, b: map<string, T>)
    requires forall k :: Lookup(a, k) == Lookup(b, k)
    ensures a == b
  {
    assert forall k :: k in a <==> Lookup(a, k).Some?;
    assert forall k :: k in b <==> Lookup(b, k).Some?;
    forall k | k in a ensures k in b && a[k] == b[k] { assert Lookup(a, k) == Lookup(b, k); }
    assert a.Keys == b.Keys;
  }

  lemma NotLater(leases: seq<Lease>, k: nat)
    requires DistinctLeases(leases) && k < |leases|
    ensures !IsLeased(leases[k + 1..], leases[k].executable)
  {
    var later := leases[k + 1..];
    assert forall i :: 0 <= i < |later| ==> later[i] == leases[i + k + 1];
  }

  // ----- Values -----

  /** Sets or deletes each recorded value. */
  function RestoreValues(values: Values, saved: seq<Saved>): Values {
    if saved == [] then values
    else
      var s, rest := saved[|saved| - 1], RestoreValues(values, saved[..|saved| - 1]);
      match s.previous
      case None => rest - {s.name}
      case Some(data) => rest[s.name := data]
  }

  lemma {:induction false} RestoreLookup(values: Values, saved: seq<Saved>, original: Values, n: string)
    requires forall i :: 0 <= i < |saved| ==> saved[i].previous == Lookup(original, saved[i].name)
    ensures Lookup(RestoreValues(values, saved), n) ==
            if IsSaved(saved, n) then Lookup(original, n) else Lookup(values, n)
  {
    if saved != [] {
      var init, last := saved[..|saved| - 1], saved[|saved| - 1];
      RestoreLookup(values, init, original, n);
      if last.name == n {
        assert saved[|saved| - 1].name == n;
      } else if IsSaved(saved, n) {
        var i :| 0 <= i < |saved| && saved[i].name == n;
        assert init[i].name == n;
      }
    }
  }

  /** Restoring a recoverable key gives back the original values and depth. */
  lemma RestoredKey(entry: Registry, key: Key, lease: Lease)
    requires Recoverable(entry, key, lease)
    ensures key.(values := RestoreValues(key.values, lease.saved)) == Original(entry, lease.executable)
    ensures lease.existed <==> lease.executable in entry.keys
  {
    var original := Original(entry, lease.executable);
    forall n ensures Lookup(RestoreValues(key.values, lease.saved), n) == Lookup(original.values, n) {
      RestoreLookup(key.values, lease.saved, original.values, n);
    }
    SameMap(RestoreValues(key.values, lease.saved), original.values);
  }

  // ----- What each setup call keeps -----

  lemma LeasedAppend(front: seq<Lease>, lease: Lease, e: string)
    ensures IsLeased(front + [lease], e) <==> IsLeased(front, e) || e == lease.executable
  {
    var all := front + [lease];
    if i :| 0 <= i < |front| && front[i].executable == e { assert all[i].executable == e; }
    if e == lease.executable { assert all[|front|].executable == e; }
    if i :| 0 <= i < |all| && all[i].executable == e {
      if i < |front| { assert front[i].executable == e; }
    }
  }

  /** Replacing the newest lease and its key keeps the others held. */
  lemma HeldReplace(entry: Registry, now: Registry, front: seq<Lease>, lease: Lease, key: Key, lease': Lease)
    requires Held(entry, now, front + [lease]) && lease'.executable == lease.executable
    requires Recoverable(entry, key, lease')
    ensures Held(entry, now.(keys := now.keys[lease.executable := key]), front + [lease'])
  {
    hide Recoverable;
    var all, all' := front + [lease], front + [lease'];
    var after := now.(keys := now.keys[lease.executable := key]);
    assert forall i :: 0 <= i < |all| ==> all'[i].executable == all[i].executable;
    forall e ensures IsLeased(all', e) <==> IsLeased(all, e) {
      LeasedAppend(front, lease, e);
      LeasedAppend(front, lease', e);
    }
    forall i | 0 <= i < |all'|
      ensures all'[i].executable in after.keys && Recoverable(entry, after.keys[all'[i].executable], all'[i])
    {
      assert all[i].executable in now.keys && Recoverable(entry, now.keys[all[i].executable], all[i]);
      if i < |front| { assert all[i].executable != all[|front|].executable; }
    }
    forall e | !IsLeased(all', e) ensures Lookup(after.keys, e) == Lookup(entry.keys, e) {
      LeasedAppend(front, lease, e);
    }
  }

  lemma OpenKey(entry: Registry, now: Registry, leases: seq<Lease>, executable: string, existed: bool)
    requires Held(entry, now, leases) && !IsLeased(leases, executable) && WellFormed(entry) && WellFormed(now)
    requires existed <==> executable in now.keys
    ensures var root := if now.root.None? then Some(map[]) else now.root;
            var after := Registry(root, if existed then now.keys else now.keys[executable := NO_KEY]);
            && Held(entry, after, leases + [Lease(executable, existed, [])])
            && WellFormed(after) && executable in after.keys && after.keys[executable] == Original(entry, executable)
  {
    var lease := Lease(executable, existed, []);
    var all := leases + [lease];
    var root := if now.root.None? then Some(map[]) else now.root;
    var after := Registry(root, if existed then now.keys else now.keys[executable := NO_KEY]);
    assert Lookup(now.keys, executable) == Lookup(entry.keys, executable);
    assert Recoverable(entry, after.keys[executable], lease);
    hide Recoverable;
    forall i, j | 0 <= i < j < |all| ensures all[i].executable != all[j].executable {
      assert i < |leases| ==> all[i] == leases[i];
      if j == |leases| { assert IsLeased(leases, all[i].executable); }
    }
    forall i | 0 <= i < |all|
      ensures all[i].executable in after.keys && Recoverable(entry, after.keys[all[i].executable], all[i])
    {
      if i < |leases| { assert all[i] == leases[i] && IsLeased(leases, all[i].executable); }
    }
    forall e | !IsLeased(all, e) ensures Lookup(after.keys, e) == Lookup(entry.keys, e) {
      LeasedAppend(leases, lease, e);
    }
  }

  lemma SaveValue(entry: Registry, now: Registry, front: seq<Lease>, lease: Lease, next: Saved)
    requires Held(entry, now, front + [lease]) && lease.executable in now.keys
    requires now.keys[lease.executable] == Original(entry, lease.executable)
    requires next.previous == Lookup(now.keys[lease.executable].values, next.name)
    ensures Held(entry, now, front + [lease.(saved := lease.saved + [next])])
  {
    var lease', key := lease.(saved := lease.saved + [next]), now.keys[lease.executable];
    assert (front + [lease])[|front|] == lease;
    assert Recoverable(entry, key, lease);
    assert Recoverable(entry, key, lease');
    HeldReplace(entry, now, front, lease, key, lease');
    assert now.(keys := now.keys[lease.executable := key]) == now;
  }

  lemma SetValue(entry: Registry, now: Registry, front: seq<Lease>, lease: Lease, setting: Setting)
    requires Held(entry, now, front + [lease]) && lease.executable in now.keys && IsSaved(lease.saved, setting.name)
    ensures var key := now.keys[lease.executable];
            var changed := key.(values := key.values[setting.name := setting.data]);
            Held(entry, now.(keys := now.keys[lease.executable := changed]), front + [lease])
  {
    var key := now.keys[lease.executable];
    var key' := key.(values := key.values[setting.name := setting.data]);
    assert (front + [lease])[|front|] == lease;
    assert Recoverable(entry, key, lease);
    assert Recoverable(entry, key', lease);
    HeldReplace(entry, now, front, lease, key', lease);
  }
}
