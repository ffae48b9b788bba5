/** The replay engine refines the pure comparator: run without disturbance, it says what `QuintReplay.compare` says of
    the observations it would make. */
module EngineComparison {
  import opened Text
  import opened Trace
  import opened Replay
  import opened ReplayLaws
  import C = Comparison

  // ---------------------------------------------------------------- the engine, for any codec

  /** The driver never fails in a complete run, and everything it observes is a valid state. */
  ghost predicate Answers(w: World, codec: Codec, trace: Trace) {
    && w.driver.initialize(FullLog(trace.steps)[..1]).Returned?
    && (forall k | 1 <= k <= |trace.steps| :: Applied(w, trace, k))
    && (forall k | 0 <= k <= |trace.steps| :: Seen(w, codec, trace, k))
  }

  predicate Applied(w: World, trace: Trace, k: nat)
    requires 1 <= k <= |trace.steps|
  {
    w.driver.apply(FullLog(trace.steps)[..2 * k + 1]).Returned?
  }

  predicate Seen(w: World, codec: Codec, trace: Trace, k: nat)
    requires k <= |trace.steps|
  {
    var answer := w.driver.observe(FullLog(trace.steps)[..2 * k + 2]);
    answer.Returned? && codec.encodeState(answer.value).Some?
  }

  /** What the driver returns to the `k`-th observation of a complete run. */
  function Observed(w: World, codec: Codec, trace: Trace, k: nat): State
    requires k <= |trace.steps| && Seen(w, codec, trace, k)
  {
    w.driver.observe(FullLog(trace.steps)[..2 * k + 2]).value
  }

  predicate MatchesAt(w: World, codec: Codec, trace: Trace, k: nat)
    requires k <= |trace.steps| && Seen(w, codec, trace, k)
  {
    codec.encodeState(ExpectedAt(trace, k)) == codec.encodeState(Observed(w, codec, trace, k))
  }

  /** Under `Answers` only an observation can fail to pass. */
  lemma PassedWhenMatching(w: World, codec: Codec, trace: Trace, p: nat)
    requires Answers(w, codec, trace) && p < 2 * |trace.steps| + 2
    ensures p % 2 == 0 ==> Passed(w, codec, trace, p)
    ensures p % 2 == 1 ==> (Passed(w, codec, trace, p) <==> MatchesAt(w, codec, trace, p / 2))
  {
    if p % 2 == 1 {
      assert 2 * (p / 2) + 2 == p + 1;
      assert Seen(w, codec, trace, p / 2);
    } else if p > 0 {
      assert 2 * (p / 2) + 1 == p + 1;
      assert Applied(w, trace, p / 2);
    }
  }

  /** From observation `from` on, observation `k` is the first not to match, or `k` is past the last. */
  ghost predicate MatchUntil(w: World, codec: Codec, trace: Trace, from: nat, k: nat)
    requires Answers(w, codec, trace) && k <= |trace.steps| + 1
  {
    (forall j: nat | from <= j < k :: Seen(w, codec, trace, j) && MatchesAt(w, codec, trace, j)) &&
    (k <= |trace.steps| ==> Seen(w, codec, trace, k) && !MatchesAt(w, codec, trace, k))
  }

  lemma {:induction false} FirstMismatch(w: World, codec: Codec, trace: Trace, from: nat, k: nat) returns (found: nat)
    requires Answers(w, codec, trace) && from <= k <= |trace.steps| + 1
    requires forall j: nat | from <= j < k :: Seen(w, codec, trace, j) && MatchesAt(w, codec, trace, j)
    ensures k <= found <= |trace.steps| + 1 && MatchUntil(w, codec, trace, from, found)
    decreases |trace.steps| + 1 - k
  {
    if k <= |trace.steps| && (assert Seen(w, codec, trace, k); MatchesAt(w, codec, trace, k)) {
      found := FirstMismatch(w, codec, trace, from, k + 1);
    } else {
      found := k;
    }
  }

  lemma EngineOutcome(w: World, codec: Codec, trace: Trace, k: nat)
    requires Calm(w) && Lawful(codec, trace) && codec.traceCodes(trace) == {}
    requires Answers(w, codec, trace) && k <= |trace.steps| + 1 && MatchUntil(w, codec, trace, 0, k)
    ensures RunSpec(w, codec, START, trace).outcome ==
      if k > |trace.steps| then Replay.Equivalent
      else
        var actual := Observed(w, codec, trace, k);
        Replay.Diverged(k, ActionAt(trace, k), SourceAt(trace, k), codec.path(ExpectedAt(trace, k), actual),
                        ExpectedAt(trace, k), actual)
  {
    StopsAtFirstFailure(w, codec, trace);
    var p := 2 * k + 1;
    forall q: nat | q < p && q < 2 * |trace.steps| + 2
      ensures Passed(w, codec, trace, q)
    {
      PassedWhenMatching(w, codec, trace, q);
    }
    if k <= |trace.steps| {
      assert p / 2 == k && p % 2 == 1;
      PassedWhenMatching(w, codec, trace, p);
      assert FirstFailure(w, codec, trace, p);
    }
  }

  // ---------------------------------------------------------------- the comparator on the engine's observations

  function ObservationAt(w: World, codec: Codec, trace: Trace, i: nat): C.Observation
    requires i < |trace.steps| && Seen(w, codec, trace, i + 1)
  {
    C.Observation(i + 1, trace.steps[i].action, trace.steps[i].source, Observed(w, codec, trace, i + 1))
  }

  ghost function Observations(w: World, codec: Codec, trace: Trace): (r: seq<C.Observation>)
    requires Answers(w, codec, trace)
    ensures |r| == |trace.steps|
    ensures forall i | 0 <= i < |r| :: Seen(w, codec, trace, i + 1) && r[i] == ObservationAt(w, codec, trace, i)
  {
    seq(|trace.steps|, i requires 0 <= i < |trace.steps| =>
      assert Seen(w, codec, trace, i + 1);
      ObservationAt(w, codec, trace, i))
  }

  lemma ObservationValid(hash: Hash, i: nat, step: Step, actual: State)
    requires ValidateStep(hash, i, step) == {} && EncodeState(hash, actual).Some?
    ensures C.ValidateObservation(hash, i, C.Observation(i + 1, step.action, step.source, actual)) == {}
    ensures step.index == i + 1 && EncodeState(hash, step.expected).Some?
  {
  }

  /** For two valid states, encoding alike and matching for the comparator are the same. */
  lemma SameEncodingIsMatch(hash: Hash, expected: State, actual: State)
    requires EncodeState(hash, expected).Some? && EncodeState(hash, actual).Some?
    ensures Encodable(expected.bindings) && Encodable(actual.bindings)
    ensures EncodeState(hash, expected) == EncodeState(hash, actual) <==> C.StateMatches(expected, actual)
  {
    ContentValid(expected);
    ContentValid(actual);
    assert expected.identity == hash(StateText(expected.bindings));
    assert actual.identity == hash(StateText(actual.bindings));
    assert EncodeState(hash, expected) == Some(StateText(expected.bindings));
    assert EncodeState(hash, actual) == Some(StateText(actual.bindings));
  }

  /** The step and the observation differ at most in their states, which match as the engine finds them to. */
  predicate Paired(step: Step, o: C.Observation, index: nat, matching: bool) {
    && C.SameBinding(step, o) && step.index == index
    && Encodable(step.expected.bindings) && Encodable(o.actual.bindings)
    && (C.StateMatches(step.expected, o.actual) <==> matching)
  }

  lemma PairedAt(w: World, hash: Hash, trace: Trace, i: nat)
    requires Answers(w, CanonicalCodec(hash), trace) && i < |trace.steps|
    requires ValidateStep(hash, i, trace.steps[i]) == {}
    ensures Seen(w, CanonicalCodec(hash), trace, i + 1)
    ensures
      var o := ObservationAt(w, CanonicalCodec(hash), trace, i);
      C.ValidateObservation(hash, i, o) == {}
      && Paired(trace.steps[i], o, i + 1, MatchesAt(w, CanonicalCodec(hash), trace, i + 1))
  {
    var codec := CanonicalCodec(hash);
    assert Seen(w, codec, trace, i + 1);
    var actual := Observed(w, codec, trace, i + 1);
    assert codec.encodeState(actual) == EncodeState(hash, actual);
    ObservationValid(hash, i, trace.steps[i], actual);
    SameEncodingIsMatch(hash, trace.steps[i].expected, actual);
  }

  ghost predicate SeenAndPaired(w: World, codec: Codec, trace: Trace, os: seq<C.Observation>, i: nat)
    requires i < |os| == |trace.steps|
  {
    Seen(w, codec, trace, i + 1) && Paired(trace.steps[i], os[i], i + 1, MatchesAt(w, codec, trace, i + 1))
  }

  ghost predicate AllPaired(w: World, codec: Codec, trace: Trace, os: seq<C.Observation>)
    requires |os| == |trace.steps|
  {
    forall i | 0 <= i < |os| :: SeenAndPaired(w, codec, trace, os, i)
  }

  lemma ComparatorAccepts(w: World, hash: Hash, trace: Trace)
    requires Answers(w, CanonicalCodec(hash), trace) && ValidateTrace(hash, trace) == {}
    ensures var os := Observations(w, CanonicalCodec(hash), trace);
      && AllPaired(w, CanonicalCodec(hash), trace, os)
      && C.StepsEncodable(trace.steps) && C.ObservationsEncodable(os)
      && C.Compare(hash, trace, os) == C.Compared(C.First(trace.steps, os))
  {
    var codec := CanonicalCodec(hash);
    var os := Observations(w, codec, trace);
    StepsValid(hash, trace.steps);
    forall i | 0 <= i < |os|
      ensures SeenAndPaired(w, codec, trace, os, i)
      ensures C.ValidateObservation(hash, i, os[i]) == {}
    {
      PairedAt(w, hash, trace, i);
    }
    C.ObservationsValid(hash, os);
    C.EncodableWhenValid(hash, trace, os);
  }

  /** Whether each observation after the initial one matches. */
  ghost function Flags(w: World, codec: Codec, trace: Trace): (r: seq<bool>)
    requires Answers(w, codec, trace)
    ensures |r| == |trace.steps|
    ensures forall i | 0 <= i < |r| :: Seen(w, codec, trace, i + 1) && r[i] == MatchesAt(w, codec, trace, i + 1)
  {
    seq(|trace.steps|, i requires 0 <= i < |trace.steps| =>
      assert Seen(w, codec, trace, i + 1);
      MatchesAt(w, codec, trace, i + 1))
  }

  lemma ComparatorVerdict(w: World, codec: Codec, trace: Trace, k: nat)
    requires Answers(w, codec, trace) && 1 <= k <= |trace.steps| + 1
    requires MatchUntil(w, codec, trace, 1, k)
    requires AllPaired(w, codec, trace, Observations(w, codec, trace))
    requires C.StepsEncodable(trace.steps) && C.ObservationsEncodable(Observations(w, codec, trace))
    ensures C.First(trace.steps, Observations(w, codec, trace)) ==
      if k > |trace.steps| then C.Equivalent
      else
        var step := trace.steps[k - 1];
        C.Diverged(k, step.action, step.source, Some(step.expected), Some(Observed(w, codec, trace, k)), C.StateDiffers)
  {
    ComparatorFirst(w, codec, trace, k);
    if k <= |trace.steps| {
      ObservedActual(w, codec, trace, k);
    }
  }

  lemma ComparatorFirst(w: World, codec: Codec, trace: Trace, k: nat)
    requires Answers(w, codec, trace) && 1 <= k <= |trace.steps| + 1
    requires MatchUntil(w, codec, trace, 1, k)
    requires AllPaired(w, codec, trace, Observations(w, codec, trace))
    requires C.StepsEncodable(trace.steps) && C.ObservationsEncodable(Observations(w, codec, trace))
    ensures
      var os := Observations(w, codec, trace);
      C.First(trace.steps, os) ==
      if k <= |os| then C.Both(trace.steps[k - 1], os[k - 1], k, C.StateDiffers) else C.Equivalent
  {
    PairedByFlags(w, codec, trace);
    FlagsUntil(w, codec, trace, k);
    VerdictOfPairs(trace.steps, Observations(w, codec, trace), Flags(w, codec, trace), k - 1);
  }

  lemma ObservedActual(w: World, codec: Codec, trace: Trace, k: nat)
    requires Answers(w, codec, trace) && 1 <= k <= |trace.steps|
    ensures Seen(w, codec, trace, k)
    ensures Observations(w, codec, trace)[k - 1].actual == Observed(w, codec, trace, k)
  {
    assert Observations(w, codec, trace)[k - 1] == ObservationAt(w, codec, trace, k - 1);
  }

  lemma PairedByFlags(w: World, codec: Codec, trace: Trace)
    requires Answers(w, codec, trace) && AllPaired(w, codec, trace, Observations(w, codec, trace))
    ensures PairedAs(trace.steps, Observations(w, codec, trace), Flags(w, codec, trace))
  {
    var os, flags := Observations(w, codec, trace), Flags(w, codec, trace);
    forall i | 0 <= i < |os|
      ensures PairAt(trace.steps, os, flags, i)
    {
      assert SeenAndPaired(w, codec, trace, os, i);
    }
  }

  lemma FlagsUntil(w: World, codec: Codec, trace: Trace, k: nat)
    requires Answers(w, codec, trace) && 1 <= k <= |trace.steps| + 1 && MatchUntil(w, codec, trace, 1, k)
    ensures
      var flags := Flags(w, codec, trace);
      (forall i | 0 <= i < k - 1 :: flags[i]) && (k <= |flags| ==> !flags[k - 1])
  {
  }

  predicate PairAt(steps: seq<Step>, os: seq<C.Observation>, flags: seq<bool>, i: nat)
    requires i < |os| == |steps| == |flags|
  {
    Paired(steps[i], os[i], i + 1, flags[i])
  }

  /** The pairs match exactly as flagged. */
  predicate PairedAs(steps: seq<Step>, os: seq<C.Observation>, flags: seq<bool>) {
    |os| == |steps| == |flags| && forall i | 0 <= i < |os| :: PairAt(steps, os, flags, i)
  }

  lemma VerdictOfPairs(steps: seq<Step>, os: seq<C.Observation>, flags: seq<bool>, k: nat)
    requires PairedAs(steps, os, flags) && k <= |flags|
    requires (forall i | 0 <= i < k :: flags[i]) && (k < |flags| ==> !flags[k])
    requires C.StepsEncodable(steps) && C.ObservationsEncodable(os)
    ensures C.First(steps, os) == if k < |os| then C.Both(steps[k], os[k], k + 1, C.StateDiffers) else C.Equivalent
  {
    forall i | 0 <= i < |os|
      ensures C.SameBinding(steps[i], os[i]) && steps[i].index == i + 1
      ensures C.StateMatches(steps[i].expected, os[i].actual) <==> flags[i]
    {
      assert PairAt(steps, os, flags, i);
    }
    C.FirstByState(steps, os, k);
  }

  /** The outcome the engine gives for a verdict of the comparator. */
  function AsOutcome(codec: Codec, verdict: C.Verdict): Outcome
    requires OnlyStateDiffers(verdict)
  {
    match verdict
    case Equivalent => Replay.Equivalent
    case Diverged(k, action, source, expected, actual, _) =>
      Replay.Diverged(
        k, Some(action), Some(source), codec.path(expected.value, actual.value), expected.value, actual.value)
  }

  predicate OnlyStateDiffers(verdict: C.Verdict) {
    verdict.Diverged? ==>
      verdict.step >= 1 && verdict.reason == C.StateDiffers && verdict.expected.Some? && verdict.actual.Some?
  }

  ghost predicate InitialMatches(w: World, codec: Codec, trace: Trace)
    requires Answers(w, codec, trace)
  {
    Seen(w, codec, trace, 0) && MatchesAt(w, codec, trace, 0)
  }

  /** The engine's outcome when its initial observation matches exactly if `initial`, and the comparator's verdict. */
  ghost predicate Agree(codec: Codec, outcome: Outcome, initial: bool, verdict: C.Verdict) {
    && OnlyStateDiffers(verdict)
    && (outcome == Replay.Equivalent <==> initial && verdict == C.Equivalent)
    && (outcome.Diverged? && outcome.step == 0 <==> !initial)
    && (initial ==> outcome == AsOutcome(codec, verdict))
  }

  lemma AgreeWhenPaired(w: World, codec: Codec, trace: Trace)
    requires Calm(w) && Lawful(codec, trace) && codec.traceCodes(trace) == {} && Answers(w, codec, trace)
    requires AllPaired(w, codec, trace, Observations(w, codec, trace))
    requires C.StepsEncodable(trace.steps) && C.ObservationsEncodable(Observations(w, codec, trace))
    ensures Agree(codec, RunSpec(w, codec, START, trace).outcome, InitialMatches(w, codec, trace),
                  C.First(trace.steps, Observations(w, codec, trace)))
  {
    var k := FirstMismatch(w, codec, trace, 0, 0);
    EngineOutcome(w, codec, trace, k);
    if k > 0 {
      ComparatorVerdict(w, codec, trace, k);
    } else {
      assert Seen(w, codec, trace, 0);
      var later := FirstMismatch(w, codec, trace, 1, 1);
      ComparatorVerdict(w, codec, trace, later);
    }
  }

  /** For a driver that neither fails nor is cancelled and returns valid states, the comparator accepts its
      observations; the engine reports Equivalent exactly when the initial observation matches and the comparator
      reports Equivalent; it diverges at step 0 exactly when the initial observation does not match; and otherwise it
      diverges at the step, action, source and states the comparator reports, whose reason is then the state. */
  lemma EngineRefinesComparator(w: World, hash: Hash, trace: Trace)
    requires Calm(w) && ValidateTrace(hash, trace) == {} && Answers(w, CanonicalCodec(hash), trace)
    ensures
      var codec := CanonicalCodec(hash);
      var comparison := C.Compare(hash, trace, Observations(w, codec, trace));
      comparison.Compared? &&
      Agree(codec, RunSpec(w, codec, START, trace).outcome, InitialMatches(w, codec, trace), comparison.verdict)
  {
    ComparatorAccepts(w, hash, trace);
    CanonicalLawful(hash, trace);
    AgreeWhenPaired(w, CanonicalCodec(hash), trace);
  }
}
