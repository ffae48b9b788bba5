/** Replaying a trace on a pure reducer: the driver's runtime is one cell that Apply overwrites. */
module PureReplay {
  import opened Text
  import opened Trace
  import opened Replay
  import opened ReplayLaws

  datatype Reducer<!S, !I> = Reducer(
    construct: Answer<S>,
    reduce: (S, I) -> Answer<S>,
    observe: S -> Answer<State>,
    cleanup: S -> Answer<()>)

  datatype Binding<I> = Binding(index: int, operation: Text, input: I)

  const NO_RUNTIME: Text := Units("No runtime")
  const INDEX_OUT_OF_RANGE: Text := Units("Index was outside the bounds of the array.")

  /** `reduce` on the input at the step's index. */
  function Reduced<S, I>(m: Reducer<S, I>, inputs: seq<I>, s: S, index: int): Answer<S> {
    if 1 <= index <= |inputs| then m.reduce(s, inputs[index - 1]) else Threw(INDEX_OUT_OF_RANGE)
  }

  function Erase<S>(answer: Answer<S>): Answer<()> {
    match answer
    case Returned(_) => Returned(())
    case Refused(m) => Refused(m)
    case Canceled(m) => Canceled(m)
    case Threw(m) => Threw(m)
  }

  function Kept<S>(answer: Answer<S>, otherwise: Option<S>): Option<S> {
    if answer.Returned? then Some(answer.value) else otherwise
  }

  /** The content of the cell after the calls. */
  function Cell<S, I>(m: Reducer<S, I>, inputs: seq<I>, log: seq<Call>): Option<S> {
    if |log| == 0 then None
    else
      var before := Cell(m, inputs, log[..|log| - 1]);
      match log[|log| - 1]
      case Initialize => Kept(m.construct, before)
      case Apply(step) => if before.None? then None else Kept(Reduced(m, inputs, before.value, step.index), before)
      case Observe => before
      case Cleanup => before
  }

  function ApplyAnswer<S, I>(m: Reducer<S, I>, inputs: seq<I>, log: seq<Call>): Answer<()> {
    if |log| == 0 || !log[|log| - 1].Apply? then Threw(NO_RUNTIME)
    else
      var before := Cell(m, inputs, log[..|log| - 1]);
      if before.None? then Threw(NO_RUNTIME) else Erase(Reduced(m, inputs, before.value, log[|log| - 1].step.index))
  }

  function ObserveAnswer<S, I>(m: Reducer<S, I>, inputs: seq<I>, log: seq<Call>): Answer<State> {
    if Cell(m, inputs, log).None? then Threw(NO_RUNTIME) else m.observe(Cell(m, inputs, log).value)
  }

  function CleanupAnswer<S, I>(m: Reducer<S, I>, inputs: seq<I>, log: seq<Call>): Answer<()> {
    if Cell(m, inputs, log).None? then Threw(NO_RUNTIME) else m.cleanup(Cell(m, inputs, log).value)
  }

  /** The driver as a function of the calls it has received. */
  function DriverOf<S, I>(m: Reducer<S, I>, inputs: seq<I>): Driver {
    Driver(_ => Erase(m.construct), log => ApplyAnswer(m, inputs, log), log => ObserveAnswer(m, inputs, log),
           log => CleanupAnswer(m, inputs, log))
  }

  /** The driver as it runs. */
  class PureDriver<S, I> {
    const reducer: Reducer<S, I>
    const inputs: seq<I>
    var runtime: Option<S>
    ghost var log: seq<Call>

    ghost predicate Valid()
      reads this
    {
      runtime == Cell(reducer, inputs, log)
    }

    constructor (reducer: Reducer<S, I>, inputs: seq<I>)
      ensures Valid() && this.reducer == reducer && this.inputs == inputs && log == []
    {
      this.reducer, this.inputs, runtime, log := reducer, inputs, None, [];
    }

    method Initialize() returns (answer: Answer<()>)
      requires Valid()
      modifies this
      ensures Valid() && log == old(log) + [Call.Initialize]
      ensures answer == DriverOf(reducer, inputs).initialize(log)
    {
      match reducer.construct {
        case Returned(s) => runtime := Some(s);
        case _ =>
      }
      answer := Erase(reducer.construct);
      log := log + [Call.Initialize];
      assert log[..|log| - 1] == old(log);
    }

    method Apply(step: Step) returns (answer: Answer<()>)
      requires Valid() && runtime.Some?
      modifies this
      ensures Valid() && log == old(log) + [Call.Apply(step)] && runtime.Some?
      ensures answer == DriverOf(reducer, inputs).apply(log)
    {
      var next := Reduced(reducer, inputs, runtime.value, step.index);
      match next {
        case Returned(s) => runtime := Some(s);
        case _ =>
      }
      answer := Erase(next);
      log := log + [Call.Apply(step)];
      assert log[..|log| - 1] == old(log);
    }

    method Observe() returns (answer: Answer<State>)
      requires Valid() && runtime.Some?
      modifies this`log
      ensures Valid() && log == old(log) + [Call.Observe]
      ensures answer == DriverOf(reducer, inputs).observe(log)
    {
      log := log + [Call.Observe];
      assert log[..|log| - 1] == old(log);
      answer := reducer.observe(runtime.value);
    }

    method CleanUp() returns (answer: Answer<()>)
      requires Valid() && runtime.Some?
      modifies this`log
      ensures Valid() && log == old(log) + [Call.Cleanup]
      ensures answer == DriverOf(reducer, inputs).cleanup(log)
    {
      log := log + [Call.Cleanup];
      assert log[..|log| - 1] == old(log);
      answer := reducer.cleanup(runtime.value);
    }
  }

  // ---------------------------------------------------------------- PureReplay.run

  ghost predicate Bound<I>(bindings: seq<Binding<I>>, trace: Trace) {
    |bindings| == |trace.steps| && forall i | 0 <= i < |bindings| ::
      && bindings[i].index == i + 1 && trace.steps[i].index == i + 1
      && trace.steps[i].action == bindings[i].operation
  }

  predicate BoundAt<I>(binding: Binding<I>, step: Step, i: nat) {
    binding.index == i + 1 && step.index == binding.index && step.action == binding.operation
  }

  function Inputs<I>(bindings: seq<Binding<I>>): (r: seq<I>)
    ensures |r| == |bindings| && forall i | 0 <= i < |r| :: r[i] == bindings[i].input
  {
    seq(|bindings|, i requires 0 <= i < |bindings| => bindings[i].input)
  }

  method CheckBindings<I>(bindings: seq<Binding<I>>, trace: Trace) returns (ok: bool)
    ensures ok <==> Bound(bindings, trace)
  {
    if |bindings| != |trace.steps| {
      return false;
    }
    for i := 0 to |bindings|
      invariant forall k | 0 <= k < i :: BoundAt(bindings[k], trace.steps[k], k)
    {
      if !BoundAt(bindings[i], trace.steps[i], i) {
        return false;
      }
    }
    return true;
  }

  function PureWorld<S, I>(m: Reducer<S, I>, bindings: seq<Binding<I>>, deadline: nat -> bool): World {
    World(DriverOf(m, Inputs(bindings)), _ => false, deadline)
  }

  /** `PureReplay.run`; without a report, it raised an argument exception. */
  method RunPure<S, I>(m: Reducer<S, I>, bindings: seq<Binding<I>>, trace: Trace, codec: Codec, deadline: nat -> bool)
    returns (report: Option<Report>)
    ensures report.None? <==> !Bound(bindings, trace)
    ensures report.Some? ==>
      var w := PureWorld(m, bindings, deadline); report.value == ReportSpec(w, RunSpec(w, codec, START, trace))
  {
    var ok := CheckBindings(bindings, trace);
    if !ok {
      return None;
    }
    var engine := new Engine(PureWorld(m, bindings, deadline), codec);
    var answer := engine.RunTrace(trace);
    return Some(answer);
  }

  // ---------------------------------------------------------------- what Equivalent means for a reducer

  /** The reducer folded over the inputs. */
  function Fold<S, I>(m: Reducer<S, I>, inputs: seq<I>): Answer<S> {
    if |inputs| == 0 then m.construct
    else
      match Fold(m, inputs[..|inputs| - 1])
      case Returned(s) => m.reduce(s, inputs[|inputs| - 1])
      case other => other
  }

  /** The state the fold reaches after `k` inputs projects to the state the trace expects. */
  ghost predicate Projects<S, I>(m: Reducer<S, I>, inputs: seq<I>, codec: Codec, trace: Trace, k: nat)
    requires k <= |inputs| == |trace.steps|
  {
    var reached := Fold(m, inputs[..k]);
    && reached.Returned? && m.observe(reached.value).Returned?
    && SameEncoding(codec, ExpectedAt(trace, k), m.observe(reached.value).value)
  }

  /** As long as the fold succeeds, the cell holds what it has reached. */
  lemma {:induction false} CellIsFold<S, I>(m: Reducer<S, I>, inputs: seq<I>, steps: seq<Step>, k: nat)
    requires |inputs| == |steps| && InOrder(steps) && k <= |steps| && Fold(m, inputs[..k]).Returned?
    ensures Cell(m, inputs, FullLog(steps)[..2 * k + 1]) == Some(Fold(m, inputs[..k]).value)
    ensures Cell(m, inputs, FullLog(steps)[..2 * k + 2]) == Some(Fold(m, inputs[..k]).value)
  {
    var log := FullLog(steps);
    if k == 0 {
      FullLogStart(steps);
      assert [Initialize][..0] == [] && [Initialize, Observe][..1] == [Initialize];
    } else {
      assert inputs[..k][..k - 1] == inputs[..k - 1];
      var j: nat := k - 1;
      CellIsFold(m, inputs, steps, j);
      FullLogStep(steps, j);
      assert 2 * j + 3 == 2 * k + 1 && 2 * j + 4 == 2 * k + 2;
      CellGrows(m, inputs, log[..2 * j + 2], Apply(steps[j]));
      CellGrows(m, inputs, log[..2 * j + 3], Observe);
    }
  }

  /** What a call does to the cell. */
  lemma CellGrows<S, I>(m: Reducer<S, I>, inputs: seq<I>, log: seq<Call>, call: Call)
    ensures call == Observe || call == Cleanup ==> Cell(m, inputs, log + [call]) == Cell(m, inputs, log)
    ensures call.Apply? && Cell(m, inputs, log).Some? ==>
      Cell(m, inputs, log + [call]) ==
      Kept(Reduced(m, inputs, Cell(m, inputs, log).value, call.step.index), Cell(m, inputs, log))
  {
    assert (log + [call])[..|log|] == log;
  }

  lemma ApplyAfter<S, I>(m: Reducer<S, I>, inputs: seq<I>, log: seq<Call>, step: Step)
    requires Cell(m, inputs, log).Some?
    ensures ApplyAnswer(m, inputs, log + [Apply(step)]) ==
        Erase(Reduced(m, inputs, Cell(m, inputs, log).value, step.index))
  {
    assert (log + [Apply(step)])[..|log|] == log;
  }

  lemma FoldStep<S, I>(m: Reducer<S, I>, inputs: seq<I>, k: nat)
    requires 1 <= k <= |inputs| && Fold(m, inputs[..k - 1]).Returned?
    ensures Fold(m, inputs[..k]) == Reduced(m, inputs, Fold(m, inputs[..k - 1]).value, k)
  {
    assert inputs[..k][..k - 1] == inputs[..k - 1];
  }

  lemma ApplyReduces<S, I>(m: Reducer<S, I>, inputs: seq<I>, before: seq<Call>, step: Step, s: S)
    requires 1 <= step.index <= |inputs| && Cell(m, inputs, before) == Some(s)
    requires Fold(m, inputs[..step.index - 1]) == Returned(s)
    ensures ApplyAnswer(m, inputs, before + [Apply(step)]).Returned? <==> Fold(m, inputs[..step.index]).Returned?
  {
    FoldStep(m, inputs, step.index);
    ApplyAfter(m, inputs, before, step);
  }

  lemma ApplyIsReduce<S, I>(m: Reducer<S, I>, inputs: seq<I>, steps: seq<Step>, k: nat)
    requires |inputs| == |steps| && InOrder(steps) && 1 <= k <= |steps| && Fold(m, inputs[..k - 1]).Returned?
    ensures ApplyAnswer(m, inputs, FullLog(steps)[..2 * k + 1]).Returned? <==> Fold(m, inputs[..k]).Returned?
  {
    var j := k - 1;
    CellIsFold(m, inputs, steps, j);
    ApplyReduces(m, inputs, FullLog(steps)[..2 * j + 2], steps[j], Fold(m, inputs[..j]).value);
    FullLogStep(steps, j);
    assert 2 * j + 3 == 2 * k + 1;
  }

  lemma PassedProjects<S, I>(m: Reducer<S, I>, inputs: seq<I>, w: World, codec: Codec, trace: Trace, k: nat)
    requires w.driver == DriverOf(m, inputs) && |inputs| == |trace.steps| && InOrder(trace.steps) && k <= |inputs|
    requires Fold(m, inputs[..k]).Returned?
    ensures Passed(w, codec, trace, 2 * k + 1) <==> Projects(m, inputs, codec, trace, k)
  {
    CellIsFold(m, inputs, trace.steps, k);
    assert (2 * k + 1) / 2 == k && (2 * k + 1) % 2 == 1;
  }

  lemma PassedFolds<S, I>(m: Reducer<S, I>, inputs: seq<I>, w: World, codec: Codec, trace: Trace, k: nat)
    requires w.driver == DriverOf(m, inputs) && |inputs| == |trace.steps| && InOrder(trace.steps) && k <= |inputs|
    requires k > 0 ==> Fold(m, inputs[..k - 1]).Returned?
    ensures Passed(w, codec, trace, 2 * k) <==> Fold(m, inputs[..k]).Returned?
  {
    if k == 0 {
      assert inputs[..0] == [];
    } else {
      assert (2 * k) % 2 == 0;
      ApplyIsReduce(m, inputs, trace.steps, k);
    }
  }

  /** The two calls of round `k`, once the fold has got that far. */
  lemma RoundProjects<S, I>(m: Reducer<S, I>, inputs: seq<I>, w: World, codec: Codec, trace: Trace, k: nat)
    requires w.driver == DriverOf(m, inputs) && |inputs| == |trace.steps| && InOrder(trace.steps) && k <= |inputs|
    requires k > 0 ==> Projects(m, inputs, codec, trace, k - 1)
    ensures Passed(w, codec, trace, 2 * k) && Passed(w, codec, trace, 2 * k + 1) <==>
        Projects(m, inputs, codec, trace, k)
  {
    PassedFolds(m, inputs, w, codec, trace, k);
    if Fold(m, inputs[..k]).Returned? {
      PassedProjects(m, inputs, w, codec, trace, k);
    }
  }

  ghost predicate PassedBefore(w: World, codec: Codec, trace: Trace, n: nat)
    requires n <= 2 * |trace.steps| + 2
  {
    forall p: nat | p < n :: Passed(w, codec, trace, p)
  }

  ghost predicate ProjectsUpTo<S, I>(m: Reducer<S, I>, inputs: seq<I>, codec: Codec, trace: Trace, k: nat)
    requires k <= |inputs| == |trace.steps|
  {
    forall j: nat | j <= k :: Projects(m, inputs, codec, trace, j)
  }

  lemma PassedRound(w: World, codec: Codec, trace: Trace, k: nat)
    requires k <= |trace.steps|
    ensures PassedBefore(w, codec, trace, 2 * k + 2) <==>
      PassedBefore(w, codec, trace, 2 * k) && Passed(w, codec, trace, 2 * k) && Passed(w, codec, trace, 2 * k + 1)
  {
  }

  lemma {:induction false} AllPassedProject<S, I>(
      m: Reducer<S, I>, inputs: seq<I>, w: World, codec: Codec, trace: Trace, k: nat)
    requires w.driver == DriverOf(m, inputs) && |inputs| == |trace.steps| && InOrder(trace.steps) && k <= |inputs|
    ensures PassedBefore(w, codec, trace, 2 * k + 2) <==> ProjectsUpTo(m, inputs, codec, trace, k)
  {
    PassedRound(w, codec, trace, k);
    ProjectsRound(m, inputs, codec, trace, k);
    if k > 0 {
      AllPassedProject(m, inputs, w, codec, trace, k - 1);
      assert 2 * (k - 1) + 2 == 2 * k;
    }
    if k == 0 || ProjectsUpTo(m, inputs, codec, trace, k - 1) {
      RoundProjects(m, inputs, w, codec, trace, k);
    }
  }

  lemma ProjectsRound<S, I>(m: Reducer<S, I>, inputs: seq<I>, codec: Codec, trace: Trace, k: nat)
    requires k <= |inputs| == |trace.steps|
    ensures ProjectsUpTo(m, inputs, codec, trace, k) <==>
      (k > 0 ==> ProjectsUpTo(m, inputs, codec, trace, k - 1)) && Projects(m, inputs, codec, trace, k)
  {
  }

  /** If `PureReplay.run` reports Equivalent then every prefix fold of the reducer projects to the state the trace
      expects; and unless the deadline interferes, it reports Equivalent exactly then. */
  lemma EquivalentMeansEveryPrefix<S, I>(
      m: Reducer<S, I>, bindings: seq<Binding<I>>, hash: Hash, trace: Trace, deadline: nat -> bool)
    requires Bound(bindings, trace) && ValidateTrace(hash, trace) == {}
    ensures
      var w, codec := PureWorld(m, bindings, deadline), CanonicalCodec(hash);
      var equivalent := RunSpec(w, codec, START, trace).outcome == Equivalent;
      var projects := ProjectsUpTo(m, Inputs(bindings), codec, trace, |trace.steps|);
      (equivalent ==> projects) && (projects && (forall i: nat :: !deadline(i)) ==> equivalent)
  {
    var w, codec, inputs := PureWorld(m, bindings, deadline), CanonicalCodec(hash), Inputs(bindings);
    CanonicalLawful(hash, trace);
    InOrderWhenLawful(codec, trace);
    Lifecycle(w, codec, trace);
    AllPassedProject(m, inputs, w, codec, trace, |trace.steps|);
    if forall i: nat :: !deadline(i) {
      StopsAtFirstFailure(w, codec, trace);
    }
  }

  function FailureOf<T>(answer: Answer<T>): Option<Text> {
    if answer.Returned? then None else Some(answer.message)
  }

  /** Cleanup is given what the whole fold reached: after an Equivalent run its failure, and nothing else, is
      reported. */
  lemma CleanupGetsTheFold<S, I>(
      m: Reducer<S, I>, bindings: seq<Binding<I>>, hash: Hash, trace: Trace, deadline: nat -> bool)
    requires Bound(bindings, trace) && ValidateTrace(hash, trace) == {}
    requires RunSpec(PureWorld(m, bindings, deadline), CanonicalCodec(hash), START, trace).outcome == Equivalent
    ensures
      var w, reached := PureWorld(m, bindings, deadline), Fold(m, Inputs(bindings));
      && reached.Returned?
      && CleanupSpec(w, RunSpec(w, CanonicalCodec(hash), START, trace)).1 == FailureOf(m.cleanup(reached.value))
  {
    var codec, inputs := CanonicalCodec(hash), Inputs(bindings);
    CanonicalLawful(hash, trace);
    InOrderWhenLawful(codec, trace);
    EquivalentRan(PureWorld(m, bindings, deadline), codec, trace);
    EquivalentMeansEveryPrefix(m, bindings, hash, trace, deadline);
    WholeFold(m, inputs, codec, trace);
    CellAtTheEnd(m, inputs, trace.steps);
  }

  lemma EquivalentRan(w: World, codec: Codec, trace: Trace)
    requires Lawful(codec, trace) && RunSpec(w, codec, START, trace).outcome == Equivalent
    ensures RunSpec(w, codec, START, trace).started && RunSpec(w, codec, START, trace).log == FullLog(trace.steps)
  {
    Lifecycle(w, codec, trace);
    FullLogStart(trace.steps);
    assert Passed(w, codec, trace, 0);
  }

  lemma WholeFold<S, I>(m: Reducer<S, I>, inputs: seq<I>, codec: Codec, trace: Trace)
    requires |inputs| == |trace.steps| && ProjectsUpTo(m, inputs, codec, trace, |trace.steps|)
    ensures Fold(m, inputs).Returned?
  {
    assert Projects(m, inputs, codec, trace, |trace.steps|);
    assert inputs[..|inputs|] == inputs;
  }

  lemma {:induction false} CellAtTheEnd<S, I>(m: Reducer<S, I>, inputs: seq<I>, steps: seq<Step>)
    requires |inputs| == |steps| && InOrder(steps) && Fold(m, inputs).Returned?
    ensures Cell(m, inputs, FullLog(steps) + [Cleanup]) == Some(Fold(m, inputs).value)
  {
    var n := |steps|;
    assert inputs[..n] == inputs && FullLog(steps)[..2 * n + 2] == FullLog(steps);
    CellIsFold(m, inputs, steps, n);
    CellGrows(m, inputs, FullLog(steps), Cleanup);
  }

  lemma InOrderWhenLawful(codec: Codec, trace: Trace)
    requires Lawful(codec, trace) && codec.traceCodes(trace) == {}
    ensures InOrder(trace.steps)
  {
  }
}
