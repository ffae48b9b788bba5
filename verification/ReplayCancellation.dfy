/** When the replay engine reports a cancellation, what it does not do afterwards, and when it refuses the trace. */
module ReplayCancellation {
  import opened Text
  import opened Trace
  import opened Replay
  import opened ReplayLaws

  /** The linked token is cancelled at the `i`-th poll. */
  predicate Raises(w: World, i: nat) {
    w.caller(i) || w.deadline(i)
  }

  /** The driver answered the last call with a cancellation. */
  predicate LastCanceled(w: World, log: seq<Call>) {
    |log| > 0 &&
    match log[|log| - 1]
    case Initialize => w.driver.initialize(log).Canceled?
    case Apply(_) => w.driver.apply(log).Canceled?
    case Observe => w.driver.observe(log).Canceled?
    case Cleanup => false
  }

  /** The run was stopped by a cancellation: its last poll found a token cancelled, or its last call was answered so. */
  predicate Interrupted(w: World, r: Run) {
    (r.polls > 0 && Raises(w, r.polls - 1)) || LastCanceled(w, r.log)
  }

  // ---------------------------------------------------------------- what stops the body

  predicate IsCancellation(e: Option<Exn>) {
    e.Some? && e.value.OperationCanceled?
  }

  predicate Told(w: World, r: Run, e: Option<Exn>) {
    IsCancellation(e) <==> Interrupted(w, r)
  }

  lemma ObserveTold(w: World, codec: Codec, r: Run, expected: State, action: Option<Text>, source: Option<Source>)
    ensures var (r1, e1) := ObserveSpec(w, codec, r, expected, action, source); Told(w, r1, e1)
  {
  }

  lemma StepTold(w: World, codec: Codec, r: Run, step: Step)
    requires Told(w, r, None)
    ensures var (r1, e1) := StepSpec(w, codec, r, step); Told(w, r1, e1)
  {
    if r.outcome == Equivalent {
      var r1 := Poll(w, r).0;
      var r2 := r1.(index := step.index, phase := Applying, applied := r1.applied + 1, log := r1.log + [Apply(step)]);
      ObserveTold(w, codec, Poll(w, r2).0, step.expected, Some(step.action), Some(step.source));
    }
  }

  lemma {:induction false} LoopTold(w: World, codec: Codec, r: Run, steps: seq<Step>)
    requires Told(w, r, None)
    ensures var (r1, e1) := LoopSpec(w, codec, r, steps); Told(w, r1, e1)
  {
    if |steps| > 0 {
      LoopTold(w, codec, r, steps[..|steps| - 1]);
      var (r1, e1) := LoopSpec(w, codec, r, steps[..|steps| - 1]);
      if e1.None? {
        StepTold(w, codec, r1, steps[|steps| - 1]);
      }
    }
  }

  lemma BodyTold(w: World, codec: Codec, trace: Trace)
    requires codec.traceCodes(trace) == {}
    ensures var (r, e) := BodySpec(w, codec, START, trace); Told(w, r, e)
  {
    var (r1, e1) := InitializeSpec(w, START);
    assert Told(w, r1, e1);
    if e1.None? && r1.started {
      ObserveTold(w, codec, r1, trace.initial, None, None);
      var (r2, e2) := ObserveSpec(w, codec, r1, trace.initial, None, None);
      if e2.None? {
        LoopTold(w, codec, r2, trace.steps);
      }
    }
  }

  /** Exactly when a run of a valid trace is reported as cancelled or as late: it was stopped by a cancellation, and
      by then the caller had cancelled, or else the deadline had passed. Stopped so when neither is the case, it is a
      failure. */
  lemma CancelledExactly(w: World, codec: Codec, trace: Trace)
    requires codec.traceCodes(trace) == {}
    ensures
      var r := RunSpec(w, codec, START, trace);
      && (r.outcome == Cancelled <==> Interrupted(w, r) && w.caller(r.polls))
      && (r.outcome == TimedOut <==> Interrupted(w, r) && !w.caller(r.polls) && w.deadline(r.polls))
      && (Interrupted(w, r) && !Raises(w, r.polls) ==> r.outcome.DriverFailure?)
  {
    BodyTold(w, codec, trace);
    NotCancelledYet(w, codec, trace);
  }

  /** A cancelled token stays cancelled. */
  ghost predicate Stable(token: nat -> bool) {
    forall i: nat, j: nat | i <= j && token(i) :: token(j)
  }

  /** With tokens that stay cancelled, a run stopped at a poll is reported as cancelled or late, never blamed on the
      driver. */
  lemma StoppedAtPoll(w: World, codec: Codec, trace: Trace)
    requires codec.traceCodes(trace) == {} && Stable(w.caller) && Stable(w.deadline)
    ensures
      var r := RunSpec(w, codec, START, trace);
      r.polls > 0 && Raises(w, r.polls - 1) ==>
        r.outcome == if w.caller(r.polls) then Cancelled else TimedOut
  {
    CancelledExactly(w, codec, trace);
    var r := RunSpec(w, codec, START, trace);
    if r.polls > 0 {
      assert w.caller(r.polls - 1) ==> w.caller(r.polls);
      assert w.deadline(r.polls - 1) ==> w.deadline(r.polls);
    }
  }

  /** Cancelled before it starts, a run of a valid trace calls nothing, applies nothing and is reported as cancelled. */
  lemma CancelledAtOnce(w: World, codec: Codec, trace: Trace)
    requires codec.traceCodes(trace) == {} && Stable(w.caller) && w.caller(0)
    ensures
      var r := RunSpec(w, codec, START, trace);
      && r.outcome == Cancelled && r.log == [] && r.applied == 0
      && CleanupSpec(w, r) == ([], None)
  {
    assert w.caller(1);
    var (r1, e1) := InitializeSpec(w, START);
    assert e1.Some? && r1.polls == 1;
  }

  // ---------------------------------------------------------------- nothing after a cancellation

  /** How many polls precede the `p`-th call: one before the first, and then one before and one after each call. */
  function Before(p: nat): nat {
    if p == 0 then 1 else 2 * p
  }

  /** Only the last poll can have found a token cancelled, and none of those before the last call did. */
  ghost predicate Guarded(w: World, r: Run) {
    && (forall i: nat | i + 1 < r.polls :: !Raises(w, i))
    && (|r.log| > 0 ==> r.polls >= Before(|r.log| - 1) && forall i: nat | i < Before(|r.log| - 1) :: !Raises(w, i))
  }

  /** And while nothing has gone wrong, each call is followed by a poll, none of which found one cancelled. */
  ghost predicate Clear(w: World, r: Run) {
    && |r.log| > 0 && r.polls == 2 * |r.log| - 1 && (forall i: nat | i < r.polls :: !Raises(w, i))
  }

  ghost predicate GuardedSoFar(w: World, r: Run, e: Option<Exn>) {
    Guarded(w, r) && (e.None? && r.outcome == Equivalent ==> Clear(w, r))
  }

  /** An observation polls once before its call and once after a call that was answered. */
  lemma ObservePolls(w: World, codec: Codec, r: Run, expected: State, action: Option<Text>, source: Option<Source>)
    ensures
      var (r1, e1) := ObserveSpec(w, codec, r, expected, action, source);
      || (Raises(w, r.polls) && r1.log == r.log && r1.polls == r.polls + 1 && e1.Some?)
      || (!Raises(w, r.polls) && r1.log == r.log + [Observe]
          && ((r1.polls == r.polls + 1 && e1.Some?)
              || (r1.polls == r.polls + 2 && (e1.None? ==> !Raises(w, r.polls + 1)))))
  {
  }

  lemma ObserveGuarded(w: World, codec: Codec, r: Run, expected: State, action: Option<Text>, source: Option<Source>)
    requires r.outcome == Equivalent && |r.log| > 0 && r.polls == 2 * |r.log| - 1
    requires forall i: nat | i < r.polls :: !Raises(w, i)
    ensures var (r1, e1) := ObserveSpec(w, codec, r, expected, action, source); GuardedSoFar(w, r1, e1)
  {
    ObservePolls(w, codec, r, expected, action, source);
    var (r1, e1) := ObserveSpec(w, codec, r, expected, action, source);
    ObservedGuarded(w, r, r1, e1);
  }

  lemma ObservedGuarded(w: World, r: Run, r1: Run, e1: Option<Exn>)
    requires |r.log| > 0 && r.polls == 2 * |r.log| - 1 && forall i: nat | i < r.polls :: !Raises(w, i)
    requires
      || (r1.log == r.log && r1.polls == r.polls + 1 && e1.Some?)
      || (!Raises(w, r.polls) && r1.log == r.log + [Observe]
          && ((r1.polls == r.polls + 1 && e1.Some?)
              || (r1.polls == r.polls + 2 && (e1.None? ==> !Raises(w, r.polls + 1)))))
    ensures GuardedSoFar(w, r1, e1)
  {
  }

  lemma StepGuarded(w: World, codec: Codec, r: Run, step: Step)
    requires GuardedSoFar(w, r, None)
    ensures var (r1, e1) := StepSpec(w, codec, r, step); GuardedSoFar(w, r1, e1)
  {
    if r.outcome == Equivalent {
      var (r1, e1) := Poll(w, r);
      if e1.None? {
        assert forall i: nat | i < r1.polls :: !Raises(w, i);
        var r2 := r1.(index := step.index, phase := Applying, applied := r1.applied + 1, log := r1.log + [Apply(step)]);
        var (r3, e3) := Poll(w, r2);
        if e3.None? {
          ObserveGuarded(w, codec, r3, step.expected, Some(step.action), Some(step.source));
        }
      }
    }
  }

  lemma {:induction false} LoopGuarded(w: World, codec: Codec, r: Run, steps: seq<Step>)
    requires GuardedSoFar(w, r, None)
    ensures var (r1, e1) := LoopSpec(w, codec, r, steps); GuardedSoFar(w, r1, e1)
  {
    if |steps| > 0 {
      LoopGuarded(w, codec, r, steps[..|steps| - 1]);
      var (r1, e1) := LoopSpec(w, codec, r, steps[..|steps| - 1]);
      if e1.None? {
        StepGuarded(w, codec, r1, steps[|steps| - 1]);
      }
    }
  }

  lemma BodyGuarded(w: World, codec: Codec, trace: Trace)
    requires codec.traceCodes(trace) == {}
    ensures
      var (r, e) := BodySpec(w, codec, START, trace);
      Guarded(w, r) && (e.None? && r.outcome == Equivalent ==> Clear(w, r))
  {
    var (r1, e1) := InitializeSpec(w, START);
    if e1.None? && r1.started {
      ObserveGuarded(w, codec, r1, trace.initial, None, None);
      var (r2, e2) := ObserveSpec(w, codec, r1, trace.initial, None, None);
      if e2.None? {
        LoopGuarded(w, codec, r2, trace.steps);
      }
    }
  }

  /** A token cancelled at the `k`-th poll leaves at most `k / 2 + 1` calls, and none if it is the first poll; and
      Equivalent is reported only if no poll of the run, one before and one after each call but the first, found one
      cancelled. */
  lemma NoCallsAfterCancellation(w: World, codec: Codec, trace: Trace, k: nat)
    requires codec.traceCodes(trace) == {}
    ensures
      var r := RunSpec(w, codec, START, trace);
      && (Raises(w, k) ==> |r.log| <= if k == 0 then 0 else k / 2 + 1)
      && (Raises(w, k) && r.outcome == Equivalent ==> k >= 2 * |r.log| - 1)
  {
    BodyGuarded(w, codec, trace);
  }

  // ---------------------------------------------------------------- the trace is refused

  lemma ObserveNotInvalid(w: World, codec: Codec, r: Run, expected: State, action: Option<Text>, source: Option<Source>)
    requires !r.outcome.InvalidTrace? && codec.encodeState(expected).Some?
    ensures !ObserveSpec(w, codec, r, expected, action, source).0.outcome.InvalidTrace?
  {
  }

  lemma StepNotInvalid(w: World, codec: Codec, r: Run, step: Step)
    requires !r.outcome.InvalidTrace? && codec.encodeState(step.expected).Some?
    ensures !StepSpec(w, codec, r, step).0.outcome.InvalidTrace?
  {
  }

  lemma {:induction false} LoopNotInvalid(w: World, codec: Codec, trace: Trace, r: Run, n: nat)
    requires !r.outcome.InvalidTrace? && ExpectedEncode(codec, trace) && n <= |trace.steps|
    ensures !LoopSpec(w, codec, r, trace.steps[..n]).0.outcome.InvalidTrace?
  {
    if n > 0 {
      LoopNotInvalid(w, codec, trace, r, n - 1);
      assert trace.steps[..n][..n - 1] == trace.steps[..n - 1];
      assert ExpectedAt(trace, n) == trace.steps[n - 1].expected;
      StepNotInvalid(w, codec, LoopSpec(w, codec, r, trace.steps[..n - 1]).0, trace.steps[n - 1]);
    }
  }

  /** A trace is reported as invalid exactly when validation finds something, which is then reported as it is, and the
      driver is not called at all. */
  lemma InvalidExactly(w: World, codec: Codec, trace: Trace)
    requires Lawful(codec, trace)
    ensures
      var r := RunSpec(w, codec, START, trace);
      && (r.outcome.InvalidTrace? <==> codec.traceCodes(trace) != {})
      && (r.outcome.InvalidTrace? ==>
            r.outcome.codes == codec.traceCodes(trace) && r.log == [] && r.applied == 0 && CleanupSpec(w, r).0 == [])
  {
    if codec.traceCodes(trace) == {} {
      var (r1, e1) := InitializeSpec(w, START);
      assert ExpectedAt(trace, 0) == trace.initial;
      ObserveNotInvalid(w, codec, r1, trace.initial, None, None);
      var (r2, e2) := ObserveSpec(w, codec, r1, trace.initial, None, None);
      LoopNotInvalid(w, codec, trace, r2, |trace.steps|);
      assert trace.steps[..|trace.steps|] == trace.steps;
    }
  }
}
