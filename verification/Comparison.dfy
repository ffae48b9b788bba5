/** `QuintReplay.compare`: the pure comparison of a trace with a list of observations. */
module Comparison {
  import opened Text
  import opened Meaning
  import opened Trace
  import opened TraceMeaning

  datatype Observation = Observation(index: int, action: Text, source: Source, actual: State)

  datatype Reason =
    MissingObservation | UnexpectedObservation | StepIdentity | ActionIdentity | SourceBinding | StateDiffers

  datatype Verdict =
    | Equivalent
    | Diverged(step: int, action: Text, source: Source, expected: Option<State>, actual: Option<State>, reason: Reason)

  datatype Comparison = Refused(codes: Codes) | Compared(verdict: Verdict)

  function ValidateObservation(hash: Hash, ordinal: nat, o: Observation): Codes {
    When(o.index != ordinal + 1, ObservationOrder) + When(Blank(o.action), ObservationAction)
    + When(!ValidUnicode(o.action), StringUnicode) + ValidateSource(o.source) + ValidateState(hash, o.actual)
  }

  function ValidateObservations(hash: Hash, observations: seq<Observation>): Codes {
    set i, c | 0 <= i < |observations| && c in ValidateObservation(hash, i, observations[i]) :: c
  }

  lemma ObservationsValid(hash: Hash, observations: seq<Observation>)
    ensures ValidateObservations(hash, observations) == {} <==>
      forall i | 0 <= i < |observations| :: ValidateObservation(hash, i, observations[i]) == {}
  {
    if i :| 0 <= i < |observations| && ValidateObservation(hash, i, observations[i]) != {} {
      var c :| c in ValidateObservation(hash, i, observations[i]);
      assert c in ValidateObservations(hash, observations);
    }
  }

  predicate StepsEncodable(steps: seq<Step>) {
    forall i | 0 <= i < |steps| :: Encodable(steps[i].expected.bindings)
  }

  predicate ObservationsEncodable(observations: seq<Observation>) {
    forall i | 0 <= i < |observations| :: Encodable(observations[i].actual.bindings)
  }

  predicate StateMatches(expected: State, actual: State)
    requires Encodable(expected.bindings) && Encodable(actual.bindings)
  {
    expected.identity == actual.identity && StateText(expected.bindings) == StateText(actual.bindings)
  }

  function Both(step: Step, o: Observation, index: int, reason: Reason): Verdict {
    Diverged(index, step.action, step.source, Some(step.expected), Some(o.actual), reason)
  }

  /** The inner `first`. */
  function First(steps: seq<Step>, observations: seq<Observation>): Verdict
    requires StepsEncodable(steps) && ObservationsEncodable(observations)
  {
    if |steps| == 0 && |observations| == 0 then Equivalent
    else if |observations| == 0 then
      var step := steps[0];
      Diverged(step.index, step.action, step.source, Some(step.expected), None, MissingObservation)
    else if |steps| == 0 then
      var o := observations[0];
      Diverged(o.index, o.action, o.source, None, Some(o.actual), UnexpectedObservation)
    else
      var step, o := steps[0], observations[0];
      if step.index != o.index then Both(step, o, if step.index < o.index then step.index else o.index, StepIdentity)
      else if step.action != o.action then Both(step, o, step.index, ActionIdentity)
      else if step.source != o.source then Both(step, o, step.index, SourceBinding)
      else if !StateMatches(step.expected, o.actual) then Both(step, o, step.index, StateDiffers)
      else First(steps[1..], observations[1..])
  }

  function Compare(hash: Hash, trace: Trace, observations: seq<Observation>): Comparison {
    var codes := ValidateTrace(hash, trace) + ValidateObservations(hash, observations);
    if codes == {} then
      EncodableWhenValid(hash, trace, observations);
      Compared(First(trace.steps, observations))
    else Refused(codes)
  }

  lemma EncodableWhenValid(hash: Hash, trace: Trace, observations: seq<Observation>)
    requires ValidateTrace(hash, trace) == {} && ValidateObservations(hash, observations) == {}
    ensures StepsEncodable(trace.steps) && ObservationsEncodable(observations)
  {
    StructuralEncodes(hash, trace);
    ObservationsValid(hash, observations);
    forall i | 0 <= i < |observations|
      ensures Encodable(observations[i].actual.bindings)
    {
      assert ValidateObservation(hash, i, observations[i]) == {};
      assert ValidateState(hash, observations[i].actual) == {};
      ContentValid(observations[i].actual);
    }
  }

  // ---------------------------------------------------------------- what the verdict says

  /** The observation is one of this very step, and only the state can differ. */
  predicate SameBinding(step: Step, o: Observation) {
    step.index == o.index && step.action == o.action && step.source == o.source
  }

  predicate Matches(step: Step, o: Observation)
    requires Encodable(step.expected.bindings) && Encodable(o.actual.bindings)
  {
    SameBinding(step, o) && StateMatches(step.expected, o.actual)
  }

  /** Equivalent exactly when there are as many observations as steps and each matches its step. */
  lemma {:induction false} FirstEquivalent(steps: seq<Step>, observations: seq<Observation>)
    requires StepsEncodable(steps) && ObservationsEncodable(observations)
    ensures First(steps, observations) == Equivalent <==>
      |steps| == |observations| && forall i | 0 <= i < |steps| :: Matches(steps[i], observations[i])
  {
    if |steps| > 0 && |observations| > 0 && Matches(steps[0], observations[0]) {
      FirstEquivalent(steps[1..], observations[1..]);
      if First(steps, observations) == Equivalent {
        forall i | 0 <= i < |steps|
          ensures Matches(steps[i], observations[i])
        {
          if i > 0 {
            assert Matches(steps[1..][i - 1], observations[1..][i - 1]);
          }
        }
      }
    }
  }

  /** The first `k` pairs match, so the verdict is that of the rest. */
  lemma {:induction false} FirstSkips(steps: seq<Step>, observations: seq<Observation>, k: nat)
    requires StepsEncodable(steps) && ObservationsEncodable(observations)
    requires k <= |steps| && k <= |observations|
    requires forall i | 0 <= i < k :: Matches(steps[i], observations[i])
    ensures First(steps, observations) == First(steps[k..], observations[k..])
  {
    if k == 0 {
      assert steps[0..] == steps && observations[0..] == observations;
    } else {
      assert Matches(steps[0], observations[0]);
      forall i | 0 <= i < k - 1
        ensures Matches(steps[1..][i], observations[1..][i])
      {
        assert Matches(steps[i + 1], observations[i + 1]);
      }
      FirstSkips(steps[1..], observations[1..], k - 1);
      assert steps[1..][k - 1..] == steps[k..] && observations[1..][k - 1..] == observations[k..];
    }
  }

  /** Observations that bear the index, action and source of their steps: the verdict is decided by the least step whose
      state does not match. */
  lemma FirstByState(steps: seq<Step>, observations: seq<Observation>, k: nat)
    requires StepsEncodable(steps) && ObservationsEncodable(observations)
    requires |steps| == |observations| && k <= |steps|
    requires forall i | 0 <= i < |steps| :: SameBinding(steps[i], observations[i])
    requires forall i | 0 <= i < k :: StateMatches(steps[i].expected, observations[i].actual)
    requires k < |steps| ==> !StateMatches(steps[k].expected, observations[k].actual)
    ensures First(steps, observations) ==
      if k < |steps| then Both(steps[k], observations[k], steps[k].index, StateDiffers) else Equivalent
  {
    forall i | 0 <= i < k
      ensures Matches(steps[i], observations[i])
    {
      assert SameBinding(steps[i], observations[i]);
    }
    FirstSkips(steps, observations, k);
    if k < |steps| {
      assert SameBinding(steps[k], observations[k]);
      assert steps[k..][0] == steps[k] && observations[k..][0] == observations[k];
    }
  }

  /** For valid states the two tests of `StateMatches` are one, and it is equality of meaning. */
  lemma StateMatchesSpec(hash: Hash, a: State, b: State)
    requires Digests(hash) && ValidState(hash, a) && ValidState(hash, b)
    ensures Encodable(a.bindings) && Encodable(b.bindings)
    ensures StateMatches(a, b) <==> StateText(a.bindings) == StateText(b.bindings)
    ensures TagFreeState(a) && TagFreeState(b) ==> (StateMatches(a, b) <==> SameState(a, b))
  {
    ContentValid(a);
    ContentValid(b);
    if TagFreeState(a) && TagFreeState(b) {
      RecordTextIsIdentity(a.bindings, b.bindings);
    }
  }
}
