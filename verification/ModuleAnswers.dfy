/**
 Where an import comes from: the outcome of a module and each of its exports in terms of the load,
 define and use statements written in it, step by step.
 */
module ModuleAnswers {
  import opened Optional
  import opened ModuleLoader

  predicate Binds(step: Step, n: string) {
    (step.Define? && step.name == n) || (step.Load? && step.local == n)
  }

  /** The last of the steps that binds a name. */
  function LastBinder(steps: seq<Step>, n: string): (i: Option<nat>)
    ensures i.Some? ==> i.value < |steps| && Binds(steps[i.value], n)
    ensures forall j :: (if i.Some? then i.value + 1 else 0) <= j < |steps| ==> !Binds(steps[j], n)
  {
    if steps == [] then None
    else
      var k := |steps| - 1;
      if Binds(steps[k], n) then Some(k) else LastBinder(steps[..k], n)
  }

  function Bound(w: World, path: string, step: Step, n: string): Symbol {
    if step.Load? then Answer(w, step.target, step.exported) else Defined(path, n)
  }

  /** What a name means after some steps: its definition, the answer for what was imported under it, or the
      converter's own binding. */
  function ValueAfter(w: World, path: string, steps: seq<Step>, n: string): Option<Symbol> {
    match LastBinder(steps, n)
    case None => if n in w.bindings then Some(Supported(n)) else None
    case Some(i) => Some(Bound(w, path, steps[i], n))
  }

  /** A step that evaluation passes: no failure, and no use of a name that is unbound or opaque. */
  predicate Passes(w: World, path: string, steps: seq<Step>, i: nat)
    requires i < |steps|
  {
    match steps[i]
    case Fail => false
    case Use(n) => var s := ValueAfter(w, path, steps[..i], n); s.Some? && !s.value.Opaque?
    case _ => true
  }

  /** A step that imports, from a local file, a name the converter does not supply, and runs into a cycle. */
  predicate Loops(w: World, step: Step) {
    step.Load? && step.exported !in w.bindings && step.target.Some? && Evaluate(w, step.target.value, {}).Cycle?
  }

  /** Evaluation gets past the first `k` steps. */
  ghost predicate Past(w: World, path: string, steps: seq<Step>, k: nat)
    requires k <= |steps|
  {
    forall j :: 0 <= j < k ==> Passes(w, path, steps, j) && !Loops(w, steps[j])
  }

  ghost predicate Agrees(w: World, path: string, steps: seq<Step>, names: Namespace) {
    forall n :: (if n in names then Some(names[n]) else None) == ValueAfter(w, path, steps, n)
  }

  function After(w: World, path: string, step: Step, names: Namespace): Namespace {
    if step.Define? then names[step.name := Defined(path, step.name)]
    else if step.Load? then names[step.local := Answer(w, step.target, step.exported)]
    else names
  }

  lemma ValueNext(w: World, path: string, steps: seq<Step>, k: nat, n: string)
    requires k < |steps|
    ensures ValueAfter(w, path, steps[..k + 1], n) ==
            if Binds(steps[k], n) then Some(Bound(w, path, steps[k], n)) else ValueAfter(w, path, steps[..k], n)
  {
    hide Answer;
    var next := steps[..k + 1];
    assert next[..k] == steps[..k];
    var i := LastBinder(steps[..k], n);
    assert i.Some? ==> steps[..k][i.value] == next[i.value];
  }

  /** The whole outcome of a module, by the first step that evaluation does not pass. */
  ghost predicate Explained(w: World, path: string, steps: seq<Step>, r: Outcome) {
    && (r.Loaded? <==> Past(w, path, steps, |steps|))
    && (r.Loaded? ==> Agrees(w, path, steps, r.exports))
    && (r.Failed? <==> exists i :: 0 <= i < |steps| && Past(w, path, steps, i) && !Passes(w, path, steps, i))
    && (r.Cycle? <==> exists i :: 0 <= i < |steps| && Past(w, path, steps, i) && Loops(w, steps[i]))
  }

  lemma ExplainLoaded(w: World, path: string, steps: seq<Step>, names: Namespace)
    requires Past(w, path, steps, |steps|) && Agrees(w, path, steps, names)
    ensures Explained(w, path, steps, Loaded(names))
  {
    hide Passes, Loops, Agrees;
  }

  lemma ExplainStopped(w: World, path: string, steps: seq<Step>, k: nat)
    requires k < |steps| && Past(w, path, steps, k)
    ensures !Passes(w, path, steps, k) ==> Explained(w, path, steps, Failed)
    ensures Loops(w, steps[k]) ==> Explained(w, path, steps, Cycle)
  {
    assert Loops(w, steps[k]) ==> Passes(w, path, steps, k);
    assert forall i :: 0 <= i < k ==> Passes(w, path, steps, i) && !Loops(w, steps[i]);
  }

  /** One step on, the names still mean what the steps say. */
  lemma AgreesNext(w: World, path: string, steps: seq<Step>, k: nat, names: Namespace, next: Namespace)
    requires k < |steps| && Agrees(w, path, steps[..k], names)
    requires next == After(w, path, steps[k], names)
    ensures Agrees(w, path, steps[..k + 1], next)
  {
    hide ValueAfter, Answer;
    forall n ensures (if n in next then Some(next[n]) else None) == ValueAfter(w, path, steps[..k + 1], n) {
      ValueNext(w, path, steps, k, n);
    }
  }

  /** Evaluation from step `k` on, with the names the first `k` steps gave. */
  lemma {:induction false} ExplainFrom(w: World, path: string, k: nat, names: Namespace)
    requires path in w.files && k <= |w.files[path]|
    requires Past(w, path, w.files[path], k) && Agrees(w, path, w.files[path][..k], names)
    requires Resumes(w, path, w.files[path][k..], names)
    requires Evaluate(w, path, {}) == Execute(w, path, w.files[path][k..], names, {path})
    ensures Explained(w, path, w.files[path], Evaluate(w, path, {}))
    decreases |w.files[path]| - k
  {
    hide Evaluate, Execute, Resumes, Agrees, Past, Explained, Answer, ValueAfter;
    var steps := w.files[path];
    if k == |steps| {
      assert steps[k..] == [] && steps[..k] == steps;
      FinishedBody(w, path, names);
      ExplainLoaded(w, path, steps, names);
    } else {
      var rest := steps[k..];
      assert rest[0] == steps[k] && rest[1..] == steps[k + 1..];
      StepResumes(w, path, rest, names);
      ExplainStopped(w, path, steps, k);
      PastNext(w, path, steps, k);
      match steps[k] {
        case Define(n) => ContinueFrom(w, path, k, names, names[n := Defined(path, n)]);
        case Use(n) =>
          UsedValue(w, path, steps, k, names, n);
          if Passes(w, path, steps, k) { ContinueFrom(w, path, k, names, names); }
        case Fail =>
        case Load(local, target, exported) => ExplainLoad(w, path, k, names);
      }
    }
  }

  lemma PastNext(w: World, path: string, steps: seq<Step>, k: nat)
    requires k < |steps| && Past(w, path, steps, k)
    ensures Passes(w, path, steps, k) && !Loops(w, steps[k]) ==> Past(w, path, steps, k + 1)
  {
    hide Passes, Loops;
  }

  lemma UsedValue(w: World, path: string, steps: seq<Step>, k: nat, names: Namespace, n: string)
    requires k < |steps| && steps[k] == Use(n) && Agrees(w, path, steps[..k], names)
    ensures Passes(w, path, steps, k) <==> n in names && !names[n].Opaque?
  {
    hide ValueAfter;
    assert (if n in names then Some(names[n]) else None) == ValueAfter(w, path, steps[..k], n);
  }

  lemma {:induction false} ContinueFrom(w: World, path: string, k: nat, names: Namespace, next: Namespace)
    requires path in w.files && k < |w.files[path]|
    requires Past(w, path, w.files[path], k + 1) && Agrees(w, path, w.files[path][..k], names)
    requires next == After(w, path, w.files[path][k], names)
    requires Follows(w, path, w.files[path][k..], names, next)
    requires Evaluate(w, path, {}) == Execute(w, path, w.files[path][k..], names, {path})
    ensures Explained(w, path, w.files[path], Evaluate(w, path, {}))
    decreases |w.files[path]| - k, 0
  {
    hide Evaluate, Execute, Resumes, Agrees, Past, Explained, Answer;
    var steps := w.files[path];
    assert steps[k..][1..] == steps[k + 1..];
    AgreesNext(w, path, steps, k, names, next);
    ExplainFrom(w, path, k + 1, next);
  }

  lemma {:induction false} ExplainLoad(w: World, path: string, k: nat, names: Namespace)
    requires path in w.files && k < |w.files[path]| && w.files[path][k].Load?
    requires Past(w, path, w.files[path], k) && Agrees(w, path, w.files[path][..k], names)
    requires Resumes(w, path, w.files[path][k..], names)
    requires Evaluate(w, path, {}) == Execute(w, path, w.files[path][k..], names, {path})
    ensures Explained(w, path, w.files[path], Evaluate(w, path, {}))
    decreases |w.files[path]| - k, 1
  {
    hide Evaluate, Execute, Resumes, Agrees, Past, Explained;
    var steps, rest := w.files[path], w.files[path][k..];
    var step := steps[k];
    assert rest[0] == step;
    StepResumes(w, path, rest, names);
    ExplainStopped(w, path, steps, k);
    PastNext(w, path, steps, k);
    var next := names[step.local := Answer(w, step.target, step.exported)];
    if step.exported in w.bindings || step.target.None? {
      ContinueFrom(w, path, k, names, next);
    } else {
      LoadNeeds(w, path, rest, names);
      ImportIsFresh(w, path, step.target.value);
      if !Evaluate(w, step.target.value, {}).Cycle? {
        ResumesAfterLoad(w, path, rest, names);
        ContinueFrom(w, path, k, names, next);
      }
    }
  }

  /** The outcome of any module: it loads exactly when every step passes, and then each export is what the last
      step that binds it says; it fails, or runs into a cycle, exactly at the first step that does. */
  lemma OutcomeExplained(w: World, path: string)
    requires path in w.files
    ensures Explained(w, path, w.files[path], Evaluate(w, path, {}))
  {
    hide Evaluate, Execute, Resumes, Explained;
    var steps := w.files[path];
    assert steps[0..] == steps && steps[..0] == [];
    StartsFresh(w, path);
    assert Agrees(w, path, [], Initial(w));
    ExplainFrom(w, path, 0, Initial(w));
  }

  /** Where the answer to a request comes from. */
  lemma AnswerExplained(w: World, path: string, n: string)
    requires n !in w.bindings
    ensures Evaluate(w, path, {}).Failed? ==> Answer(w, Some(path), n) == Opaque(Broken(path))
    ensures Evaluate(w, path, {}).Cycle? ==> Answer(w, Some(path), n) == Opaque(Cyclic)
    ensures Evaluate(w, path, {}).Loaded? ==> path in w.files
    ensures Evaluate(w, path, {}).Loaded? ==>
              var answer, i := Answer(w, Some(path), n), LastBinder(w.files[path], n);
              if i.None? then answer == Opaque(NoExport(path, n))
              else
                var step := w.files[path][i.value];
                if step.Load? then answer == Answer(w, step.target, step.exported) else answer == Defined(path, n)
  {
    hide Execute;
    if path in w.files {
      OutcomeExplained(w, path);
      var r := Evaluate(w, path, {});
      if r.Loaded? {
        assert (if n in r.exports then Some(r.exports[n]) else None) == ValueAfter(w, path, w.files[path], n);
      }
    } else {
      MissingFails(w, path);
    }
  }

  /** A file that defines a name and does nothing else answers with its own definition. */
  lemma DefinedByFile(path: string, n: string)
    ensures Answer(World(map[path := [Define(n)]], {}), Some(path), n) == Defined(path, n)
  {
    hide Evaluate, Answer;
    var w := World(map[path := [Define(n)]], {});
    OutcomeExplained(w, path);
    AnswerExplained(w, path, n);
    assert Past(w, path, w.files[path], 1);
  }
}
