/** Which inputs the comparator compares, and what it says of the first pair that does not match. */
module ComparisonVerdict {
  import opened Text
  import opened Trace
  import opened Comparison
  import opened TraceAcceptance

  // ---------------------------------------------------------------- what is compared

  predicate GoodObservation(hash: Hash, o: Observation, index: int) {
    o.index == index && !Blank(o.action) && ValidUnicode(o.action) && GoodSource(o.source) && GoodState(hash, o.actual)
  }

  lemma ObservationAccepted(hash: Hash, i: nat, o: Observation)
    requires Digests(hash)
    ensures ValidateObservation(hash, i, o) == {} <==> GoodObservation(hash, o, i + 1)
  {
    SourceAccepted(o.source);
    ValidStateSpec(hash, o.actual);
  }

  lemma ObservationsAccepted(hash: Hash, os: seq<Observation>)
    requires Digests(hash)
    ensures ValidateObservations(hash, os) == {} <==> forall i | 0 <= i < |os| :: GoodObservation(hash, os[i], i + 1)
  {
    ObservationsValid(hash, os);
    forall i | 0 <= i < |os|
      ensures ValidateObservation(hash, i, os[i]) == {} <==> GoodObservation(hash, os[i], i + 1)
    {
      ObservationAccepted(hash, i, os[i]);
    }
  }

  /** Traces are compared exactly when the trace is valid and every observation bears its place, an action, a source
      and a state that are in order. */
  lemma ComparedExactly(hash: Hash, trace: Trace, os: seq<Observation>)
    requires Digests(hash)
    ensures Compare(hash, trace, os).Compared? <==>
      ValidateTrace(hash, trace) == {} && forall i | 0 <= i < |os| :: GoodObservation(hash, os[i], i + 1)
  {
    ObservationsAccepted(hash, os);
    BothEmpty(ValidateTrace(hash, trace), ValidateObservations(hash, os));
  }

  lemma BothEmpty(a: Codes, b: Codes)
    ensures a + b == {} <==> a == {} && b == {}
  {
    assert a <= a + b && b <= a + b;
  }

  // ---------------------------------------------------------------- the first difference

  /** What the pair differs in first: its place, its action, its source or its state. */
  predicate DiffersIn(step: Step, o: Observation, reason: Reason)
    requires Encodable(step.expected.bindings) && Encodable(o.actual.bindings)
  {
    match reason
    case StepIdentity => step.index != o.index
    case ActionIdentity => step.index == o.index && step.action != o.action
    case SourceBinding => step.index == o.index && step.action == o.action && step.source != o.source
    case StateDiffers => SameBinding(step, o) && !StateMatches(step.expected, o.actual)
    case _ => false
  }

  /** The verdict on the lists from a pair on that does not match, or from where one of them ends. */
  predicate Says(steps: seq<Step>, os: seq<Observation>, k: nat, verdict: Verdict)
    requires StepsEncodable(steps) && ObservationsEncodable(os) && k <= |steps| && k <= |os|
  {
    if k == |steps| && k == |os| then verdict == Equivalent
    else if k == |os| then
      verdict == Diverged(steps[k].index, steps[k].action, steps[k].source, Some(steps[k].expected), None,
                          MissingObservation)
    else if k == |steps| then
      verdict == Diverged(os[k].index, os[k].action, os[k].source, None, Some(os[k].actual), UnexpectedObservation)
    else
      && verdict.Diverged? && DiffersIn(steps[k], os[k], verdict.reason)
      && verdict.action == steps[k].action && verdict.source == steps[k].source
      && verdict.expected == Some(steps[k].expected) && verdict.actual == Some(os[k].actual)
      && verdict.step <= steps[k].index && verdict.step <= os[k].index
      && (verdict.step == steps[k].index || verdict.step == os[k].index)
  }

  /** The verdict is decided by the first place where the lists do not match: both ended, an observation is missing, one
      too many is there, or the pair differs, first in its place, then its action, its source and its state. */
  lemma {:induction false} FirstDifference(steps: seq<Step>, os: seq<Observation>) returns (k: nat)
    requires StepsEncodable(steps) && ObservationsEncodable(os)
    ensures k <= |steps| && k <= |os| && forall i | 0 <= i < k :: Matches(steps[i], os[i])
    ensures Says(steps, os, k, First(steps, os))
  {
    if |steps| == 0 || |os| == 0 || !Matches(steps[0], os[0]) {
      k := 0;
    } else {
      var n := FirstDifference(steps[1..], os[1..]);
      k := n + 1;
      MatchAlong(steps, os, n);
    }
  }

  lemma MatchAlong(steps: seq<Step>, os: seq<Observation>, n: nat)
    requires StepsEncodable(steps) && ObservationsEncodable(os) && n < |steps| && n < |os| && Matches(steps[0], os[0])
    requires forall i | 0 <= i < n :: Matches(steps[1..][i], os[1..][i])
    ensures forall i | 0 <= i < n + 1 :: Matches(steps[i], os[i])
  {
    forall i | 0 <= i < n + 1
      ensures Matches(steps[i], os[i])
    {
      if i > 0 {
        assert Matches(steps[1..][i - 1], os[1..][i - 1]);
      }
    }
  }
}
