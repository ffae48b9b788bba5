/** What a run of the replay engine can be, for every driver and every cancellation. */
module ReplayLaws {
  import opened Text
  import opened Trace
  import opened Replay

  // ---------------------------------------------------------------- the calls of a complete run

  /** The calls an undisturbed run makes before cleanup. */
  function FullLog(steps: seq<Step>): (log: seq<Call>)
    ensures |log| == 2 * |steps| + 2
  {
    if |steps| == 0 then [Initialize, Observe]
    else FullLog(steps[..|steps| - 1]) + [Apply(steps[|steps| - 1]), Observe]
  }

  lemma {:induction false} FullLogPrefix(steps: seq<Step>, n: nat)
    requires n <= |steps|
    ensures FullLog(steps)[..2 * n + 2] == FullLog(steps[..n])
    decreases |steps|
  {
    if n == |steps| {
      assert steps[..n] == steps;
    } else {
      var shorter := steps[..|steps| - 1];
      assert shorter[..n] == steps[..n];
      FullLogPrefix(shorter, n);
      assert FullLog(steps)[..2 * n + 2] == FullLog(shorter)[..2 * n + 2];
    }
  }

  lemma {:induction false} FullLogStep(steps: seq<Step>, n: nat)
    requires n < |steps|
    ensures FullLog(steps)[..2 * n + 3] == FullLog(steps)[..2 * n + 2] + [Apply(steps[n])]
    ensures FullLog(steps)[..2 * n + 4] == FullLog(steps)[..2 * n + 3] + [Observe]
  {
    var log, before := FullLog(steps), FullLog(steps[..n]);
    assert log[..2 * n + 2] == before by {
      FullLogPrefix(steps, n);
    }
    assert log[..2 * n + 4] == before + [Apply(steps[n]), Observe] by {
      FullLogPrefix(steps, n + 1);
      assert steps[..n + 1][..n] == steps[..n];
    }
    Truncated(log, before, Apply(steps[n]), Observe);
  }

  lemma Truncated<T>(log: seq<T>, before: seq<T>, x: T, y: T)
    requires |log| >= |before| + 2 && log[..|before| + 2] == before + [x, y]
    ensures log[..|before| + 1] == before + [x]
    ensures log[..|before| + 2] == before + [x] + [y]
  {
    assert log[..|before| + 1] == log[..|before| + 2][..|before| + 1];
  }

  lemma FullLogStart(steps: seq<Step>)
    ensures FullLog(steps)[..1] == [Initialize] && FullLog(steps)[..2] == [Initialize, Observe]
  {
    FullLogPrefix(steps, 0);
    assert FullLog(steps)[..1] == FullLog(steps)[..2][..1];
  }

  function ExpectedAt(trace: Trace, k: nat): State
    requires k <= |trace.steps|
  {
    if k == 0 then trace.initial else trace.steps[k - 1].expected
  }

  /** The driver's answer to the `p`-th call of a complete run lets the run go on: an even call succeeds, an odd one
      returns a valid state that encodes as the trace expects. */
  ghost predicate Passed(w: World, codec: Codec, trace: Trace, p: nat)
    requires p < 2 * |trace.steps| + 2
  {
    var log := FullLog(trace.steps)[..p + 1];
    if p == 0 then w.driver.initialize(log).Returned?
    else if p % 2 == 0 then w.driver.apply(log).Returned?
    else ObservedWell(w, codec, log, ExpectedAt(trace, p / 2))
  }

  predicate SameEncoding(codec: Codec, expected: State, actual: State) {
    codec.encodeState(actual).Some? && codec.encodeState(expected) == codec.encodeState(actual)
  }

  predicate InOrder(steps: seq<Step>) {
    forall i | 0 <= i < |steps| :: steps[i].index == i + 1
  }

  // ---------------------------------------------------------------- every run

  /** The run has made a first part of the calls of `n` rounds, all but the last of them passed, and if nothing has gone
      wrong it has made all of them and the last passed too. */
  ghost predicate Going(w: World, codec: Codec, trace: Trace, n: nat, r: Run, e: Option<Exn>)
    requires n <= |trace.steps|
  {
    && r.started && 1 <= |r.log| <= 2 * n + 2
    && r.log == FullLog(trace.steps)[..|r.log|]
    && r.applied == (|r.log| - 1) / 2
    && r.index == r.applied
    && (forall p: nat | p < |r.log| - 1 :: Passed(w, codec, trace, p))
    && (e.None? && r.outcome == Equivalent ==> |r.log| == 2 * n + 2 && Passed(w, codec, trace, 2 * n + 1))
  }

  /** An observation makes at most one call, and if nothing goes wrong it makes it and the states encode alike. */
  lemma ObserveShape(w: World, codec: Codec, r: Run, expected: State, action: Option<Text>, source: Option<Source>)
    requires r.outcome == Equivalent
    ensures var (r1, e1) := ObserveSpec(w, codec, r, expected, action, source);
      && r1.started == r.started && r1.applied == r.applied && r1.index == r.index
      && (r1.log == r.log || r1.log == r.log + [Observe])
      && (e1.None? && r1.outcome == Equivalent ==>
            r1.log == r.log + [Observe] && ObservedWell(w, codec, r1.log, expected))
  {
  }

  predicate ObservedWell(w: World, codec: Codec, log: seq<Call>, expected: State) {
    w.driver.observe(log).Returned? && SameEncoding(codec, expected, w.driver.observe(log).value)
  }

  lemma {:induction false} ObserveCall(steps: seq<Step>, n: nat)
    requires n <= |steps|
    ensures FullLog(steps)[..2 * n + 2] == FullLog(steps)[..2 * n + 1] + [Observe]
  {
    if n == 0 {
      FullLogStart(steps);
    } else {
      var k: nat := n - 1;
      FullLogStep(steps, k);
      assert 2 * n + 1 == 2 * k + 3 && 2 * n + 2 == 2 * k + 4;
    }
  }

  lemma ObserveGoes(w: World, codec: Codec, trace: Trace, n: nat, r: Run, action: Option<Text>, source: Option<Source>)
    requires n <= |trace.steps|
    requires r.started && r.log == FullLog(trace.steps)[..2 * n + 1] && r.applied == n && r.index == n
    requires forall p: nat | p < 2 * n :: Passed(w, codec, trace, p)
    requires r.outcome == Equivalent
    requires n == 0 ==> Passed(w, codec, trace, 0)
    requires Passed(w, codec, trace, 2 * n)
    ensures var (r1, e1) := ObserveSpec(w, codec, r, ExpectedAt(trace, n), action, source);
      Going(w, codec, trace, n, r1, e1)
  {
    ObserveCall(trace.steps, n);
    assert (2 * n + 1) / 2 == n && (2 * n + 1) % 2 == 1;
    ObserveShape(w, codec, r, ExpectedAt(trace, n), action, source);
  }

  /** A round either gets to its observation, after a successful Apply, or stops before it. */
  lemma StepShape(w: World, codec: Codec, r: Run, step: Step) returns (observing: bool, r3: Run)
    requires r.outcome == Equivalent
    ensures observing ==>
      && r3.log == r.log + [Apply(step)] && r3.applied == r.applied + 1 && r3.index == step.index
      && r3.started == r.started && r3.outcome == Equivalent && w.driver.apply(r3.log).Returned?
      && StepSpec(w, codec, r, step) == ObserveSpec(w, codec, r3, step.expected, Some(step.action), Some(step.source))
    ensures !observing ==> var (r1, e1) := StepSpec(w, codec, r, step);
      && (e1.Some? || r1.outcome != Equivalent) && r1.started == r.started
      && ((r1.log == r.log && r1.applied == r.applied && r1.index == r.index)
          || (r1.log == r.log + [Apply(step)] && r1.applied == r.applied + 1 && r1.index == step.index))
    ensures Calm(w) && w.driver.apply(r.log + [Apply(step)]).Returned? ==> observing
  {
    var (r1, e1) := Poll(w, r);
    var r2 := r1.(index := step.index, phase := Applying, applied := r1.applied + 1, log := r1.log + [Apply(step)]);
    var e3 := Poll(w, r2).1;
    r3 := Poll(w, r2).0;
    observing := e1.None? && w.driver.apply(r2.log).Returned? && e3.None?;
  }

  lemma StoppedGoes(w: World, codec: Codec, trace: Trace, n: nat, r: Run, r1: Run, e1: Option<Exn>)
    requires n < |trace.steps| && InOrder(trace.steps)
    requires Going(w, codec, trace, n, r, None) && r.outcome == Equivalent
    requires (e1.Some? || r1.outcome != Equivalent) && r1.started == r.started
    requires
      || (r1.log == r.log && r1.applied == r.applied && r1.index == r.index)
      || (r1.log == r.log + [Apply(trace.steps[n])] && r1.applied == r.applied + 1 && r1.index == trace.steps[n].index)
    ensures Going(w, codec, trace, n + 1, r1, e1)
  {
    FullLogStep(trace.steps, n);
  }

  lemma AppliedGoes(w: World, codec: Codec, trace: Trace, n: nat, r: Run, r3: Run)
    requires n < |trace.steps| && Going(w, codec, trace, n, r, None) && r.outcome == Equivalent
    requires r3.log == r.log + [Apply(trace.steps[n])] && w.driver.apply(r3.log).Returned?
    ensures r3.log == FullLog(trace.steps)[..2 * (n + 1) + 1]
    ensures Passed(w, codec, trace, 2 * (n + 1)) && forall p: nat | p < 2 * (n + 1) :: Passed(w, codec, trace, p)
  {
    FullLogStep(trace.steps, n);
    assert (2 * n + 2) % 2 == 0;
  }

  lemma ObservingGoes(w: World, codec: Codec, trace: Trace, n: nat, r: Run, r3: Run)
    requires n < |trace.steps| && InOrder(trace.steps)
    requires Going(w, codec, trace, n, r, None) && r.outcome == r3.outcome == Equivalent && r3.started
    requires r3.log == r.log + [Apply(trace.steps[n])] && w.driver.apply(r3.log).Returned?
    requires r3.applied == r.applied + 1 && r3.index == trace.steps[n].index
    ensures
      var step := trace.steps[n];
      var (r1, e1) := ObserveSpec(w, codec, r3, step.expected, Some(step.action), Some(step.source));
      Going(w, codec, trace, n + 1, r1, e1)
  {
    AppliedGoes(w, codec, trace, n, r, r3);
    AppliedCounts(w, codec, trace, n, r);
    ObserveStep(w, codec, trace, n, r3);
  }

  lemma AppliedCounts(w: World, codec: Codec, trace: Trace, n: nat, r: Run)
    requires n < |trace.steps| && Going(w, codec, trace, n, r, None) && r.outcome == Equivalent
    ensures r.applied == n
  {
  }

  lemma ObserveStep(w: World, codec: Codec, trace: Trace, n: nat, r3: Run)
    requires n < |trace.steps| && r3.outcome == Equivalent && r3.started
    requires r3.log == FullLog(trace.steps)[..2 * (n + 1) + 1] && r3.applied == r3.index == n + 1
    requires Passed(w, codec, trace, 2 * (n + 1)) && forall p: nat | p < 2 * (n + 1) :: Passed(w, codec, trace, p)
    ensures
      var step := trace.steps[n];
      var (r1, e1) := ObserveSpec(w, codec, r3, step.expected, Some(step.action), Some(step.source));
      Going(w, codec, trace, n + 1, r1, e1)
  {
    assert ExpectedAt(trace, n + 1) == trace.steps[n].expected;
    ObserveGoes(w, codec, trace, n + 1, r3, Some(trace.steps[n].action), Some(trace.steps[n].source));
  }

  lemma StepGoes(w: World, codec: Codec, trace: Trace, n: nat, r: Run)
    requires n < |trace.steps| && InOrder(trace.steps)
    requires Going(w, codec, trace, n, r, None)
    ensures var (r1, e1) := StepSpec(w, codec, r, trace.steps[n]); Going(w, codec, trace, n + 1, r1, e1)
  {
    if r.outcome == Equivalent {
      var step := trace.steps[n];
      var observing, r3 := StepShape(w, codec, r, step);
      if observing {
        ObservingGoes(w, codec, trace, n, r, r3);
      } else {
        var (r1, e1) := StepSpec(w, codec, r, step);
        StoppedGoes(w, codec, trace, n, r, r1, e1);
      }
    }
  }

  lemma {:induction false} LoopGoes(w: World, codec: Codec, trace: Trace, n: nat, r: Run)
    requires n <= |trace.steps| && InOrder(trace.steps)
    requires Going(w, codec, trace, 0, r, None)
    ensures var (r1, e1) := LoopSpec(w, codec, r, trace.steps[..n]); Going(w, codec, trace, n, r1, e1)
  {
    if n > 0 {
      LoopGoes(w, codec, trace, n - 1, r);
      assert trace.steps[..n][..n - 1] == trace.steps[..n - 1];
      var (r1, e1) := LoopSpec(w, codec, r, trace.steps[..n - 1]);
      if e1.None? {
        StepGoes(w, codec, trace, n - 1, r1);
      }
    }
  }

  lemma InitializeGoes(w: World, codec: Codec, trace: Trace)
    ensures var (r1, e1) := InitializeSpec(w, START);
      && r1.applied == 0 && r1.index == 0
      && (r1.started ==> e1.None? && r1.outcome == Equivalent && r1.log == FullLog(trace.steps)[..1])
      && (r1.started ==> Passed(w, codec, trace, 0))
      && (!r1.started ==> r1.log == [] || r1.log == FullLog(trace.steps)[..1])
      && (!r1.started && e1.None? ==> r1.outcome.DriverFailure?)
  {
    FullLogStart(trace.steps);
  }

  /** A run before its cleanup. */
  ghost predicate Lived(w: World, codec: Codec, trace: Trace, r: Run) {
    && |r.log| <= 2 * |trace.steps| + 2
    && r.log == FullLog(trace.steps)[..|r.log|]
    && r.applied == (if |r.log| == 0 then 0 else (|r.log| - 1) / 2)
    && (forall p: nat | p < |r.log| - 1 :: Passed(w, codec, trace, p))
    && (r.started <==> |r.log| > 0 && w.driver.initialize([Initialize]).Returned?)
    && (r.outcome == Equivalent ==>
          r.log == FullLog(trace.steps) && forall p: nat | p < 2 * |trace.steps| + 2 :: Passed(w, codec, trace, p))
    && (r.outcome.Diverged? ==> r.outcome.step == r.applied)
  }

  /** What validation promises the engine. */
  ghost predicate Lawful(codec: Codec, trace: Trace) {
    codec.traceCodes(trace) == {} ==> InOrder(trace.steps) && ExpectedEncode(codec, trace)
  }

  predicate ExpectedEncode(codec: Codec, trace: Trace) {
    forall k | 0 <= k <= |trace.steps| :: codec.encodeState(ExpectedAt(trace, k)).Some?
  }

  lemma CanonicalLawful(hash: Hash, trace: Trace)
    ensures Lawful(CanonicalCodec(hash), trace)
  {
    if ValidateTrace(hash, trace) == {} {
      ValidParts(hash, trace);
      forall k | 0 <= k <= |trace.steps|
        ensures EncodeState(hash, ExpectedAt(trace, k)).Some?
      {
        assert k > 0 ==> EncodeState(hash, trace.steps[k - 1].expected).Some?;
      }
    }
  }

  lemma ValidParts(hash: Hash, trace: Trace)
    requires ValidateTrace(hash, trace) == {}
    ensures EncodeState(hash, trace.initial).Some?
    ensures forall i | 0 <= i < |trace.steps| ::
        trace.steps[i].index == i + 1 && EncodeState(hash, trace.steps[i].expected).Some?
  {
    StepsValid(hash, trace.steps);
    forall i | 0 <= i < |trace.steps|
      ensures trace.steps[i].index == i + 1 && EncodeState(hash, trace.steps[i].expected).Some?
    {
      StepParts(hash, i, trace.steps[i]);
    }
  }

  lemma StepParts(hash: Hash, i: nat, step: Step)
    requires ValidateStep(hash, i, step) == {}
    ensures step.index == i + 1 && EncodeState(hash, step.expected).Some?
  {
  }

  /** A divergence is reported with the index of the last step applied. */
  lemma ObserveDiverges(w: World, codec: Codec, r: Run, expected: State, action: Option<Text>, source: Option<Source>)
    requires r.outcome == Equivalent
    ensures var (r1, _) := ObserveSpec(w, codec, r, expected, action, source);
      r1.outcome.Diverged? ==> r1.outcome.step == r.index == r1.index
  {
  }

  lemma StepDiverges(w: World, codec: Codec, r: Run, step: Step)
    requires r.outcome.Diverged? ==> r.outcome.step == r.index
    ensures var (r1, _) := StepSpec(w, codec, r, step); r1.outcome.Diverged? ==> r1.outcome.step == r1.index
  {
    if r.outcome == Equivalent {
      var (r1, e1) := Poll(w, r);
      var r2 := r1.(index := step.index, phase := Applying, applied := r1.applied + 1, log := r1.log + [Apply(step)]);
      var (r3, e3) := Poll(w, r2);
      ObserveDiverges(w, codec, r3, step.expected, Some(step.action), Some(step.source));
    }
  }

  lemma {:induction false} LoopDiverges(w: World, codec: Codec, r: Run, steps: seq<Step>)
    requires r.outcome.Diverged? ==> r.outcome.step == r.index
    ensures var (r1, _) := LoopSpec(w, codec, r, steps); r1.outcome.Diverged? ==> r1.outcome.step == r1.index
  {
    if |steps| > 0 {
      LoopDiverges(w, codec, r, steps[..|steps| - 1]);
      var (r1, e1) := LoopSpec(w, codec, r, steps[..|steps| - 1]);
      StepDiverges(w, codec, r1, steps[|steps| - 1]);
    }
  }

  lemma PlayGoes(w: World, codec: Codec, trace: Trace, r: Run)
    requires InOrder(trace.steps)
    requires r.started && r.log == FullLog(trace.steps)[..1] && r.applied == 0 &&
        r.index == 0 && r.outcome == Equivalent
    requires Passed(w, codec, trace, 0)
    ensures var (r1, e1) := PlaySpec(w, codec, r, trace);
      Going(w, codec, trace, |trace.steps|, r1, e1) && (r1.outcome.Diverged? ==> r1.outcome.step == r1.index)
  {
    ObserveGoes(w, codec, trace, 0, r, None, None);
    ObserveDiverges(w, codec, r, trace.initial, None, None);
    var (r1, e1) := ObserveSpec(w, codec, r, trace.initial, None, None);
    if e1.None? {
      LoopGoes(w, codec, trace, |trace.steps|, r1);
      assert trace.steps[..|trace.steps|] == trace.steps;
      LoopDiverges(w, codec, r1, trace.steps);
    }
  }

  lemma GoingLived(w: World, codec: Codec, trace: Trace, r: Run, e: Option<Exn>)
    requires Going(w, codec, trace, |trace.steps|, r, e)
    requires r.outcome.Diverged? ==> r.outcome.step == r.index
    requires Passed(w, codec, trace, 0)
    ensures Lived(w, codec, trace, HandleSpec(w, r, e))
  {
    FullLogStart(trace.steps);
    var h := HandleSpec(w, r, e);
    if h.outcome == Equivalent {
      assert r.log == FullLog(trace.steps);
      forall p: nat | p < 2 * |trace.steps| + 2
        ensures Passed(w, codec, trace, p)
      {
        assert p < 2 * |trace.steps| + 1 || p == 2 * |trace.steps| + 1;
      }
    }
  }

  /** Whatever the driver answers and whenever the run is cancelled: the calls made are a first part of the calls of a
      complete run, so the steps are applied in order, none twice, and their number is the one reported; every call but
      the last was answered well, so nothing is applied after a failure, a divergence or an exception; and Equivalent is
      reported only when the whole trace was replayed and every observation agreed. */
  lemma Lifecycle(w: World, codec: Codec, trace: Trace)
    requires Lawful(codec, trace)
    ensures Lived(w, codec, trace, RunSpec(w, codec, START, trace))
  {
    if codec.traceCodes(trace) == {} {
      InitializeGoes(w, codec, trace);
      var (r1, e1) := InitializeSpec(w, START);
      if e1.None? && r1.started {
        PlayGoes(w, codec, trace, r1);
        var (r2, e2) := PlaySpec(w, codec, r1, trace);
        GoingLived(w, codec, trace, r2, e2);
      } else {
        FullLogStart(trace.steps);
        UnstartedLived(w, codec, trace);
      }
    }
  }

  lemma UnstartedLived(w: World, codec: Codec, trace: Trace)
    requires !InitializeSpec(w, START).0.started
    ensures var (r1, e1) := InitializeSpec(w, START); Lived(w, codec, trace, HandleSpec(w, r1, e1))
  {
    FullLogStart(trace.steps);
  }

  function Applications(log: seq<Call>): nat {
    if |log| == 0 then 0 else Applications(log[..|log| - 1]) + if log[|log| - 1].Apply? then 1 else 0
  }

  lemma {:induction false} ApplicationsOf(steps: seq<Step>, n: nat)
    requires n <= 2 * |steps| + 2
    ensures Applications(FullLog(steps)[..n]) == if n == 0 then 0 else (n - 1) / 2
  {
    if n == 1 {
      FullLogStart(steps);
      assert [Initialize][..0] == [];
    } else if n > 1 {
      ApplicationsOf(steps, n - 1);
      assert FullLog(steps)[..n][..n - 1] == FullLog(steps)[..n - 1];
      CallAt(steps, n - 1);
    }
  }

  /** After the first call, observations and applications take turns. */
  lemma CallAt(steps: seq<Step>, p: nat)
    requires 1 <= p < 2 * |steps| + 2
    ensures FullLog(steps)[p].Apply? <==> p % 2 == 0
  {
    if p % 2 == 1 {
      ObserveCall(steps, p / 2);
      assert FullLog(steps)[..p + 1][p] == Observe;
    } else {
      var n: nat := p / 2 - 1;
      FullLogStep(steps, n);
      assert p == 2 * n + 2 && FullLog(steps)[..p + 1][p].Apply?;
    }
  }

  /** What is reported: the outcome, the number of applications made, and what cleanup came to. */
  lemma Reported(w: World, codec: Codec, trace: Trace)
    requires Lawful(codec, trace)
    ensures
      var r := RunSpec(w, codec, START, trace);
      var report := ReportSpec(w, r);
      && report.outcome == r.outcome && report.appliedSteps == Applications(r.log)
      && report.cleanupFailure == CleanupSpec(w, r).1
  {
    Lifecycle(w, codec, trace);
    ApplicationsOf(trace.steps, |RunSpec(w, codec, START, trace).log|);
  }

  /** Cleanup is the last call and is made exactly when Initialize succeeded; its answer changes neither the outcome nor
      the number of steps reported, and is reported exactly when it is not a success. */
  lemma CleanupOnce(w: World, codec: Codec, trace: Trace)
    requires Lawful(codec, trace)
    ensures var r := RunSpec(w, codec, START, trace);
      && Cleanup !in r.log
      && CleanupSpec(w, r).0 == r.log + (if r.started then [Cleanup] else [])
      && (r.started <==> Initialize in r.log && w.driver.initialize([Initialize]).Returned?)
      && (CleanupSpec(w, r).1.Some? <==> r.started && !w.driver.cleanup(r.log + [Cleanup]).Returned?)
      && (CleanupSpec(w, r).1.Some? ==> CleanupSpec(w, r).1.value == w.driver.cleanup(r.log + [Cleanup]).message)
  {
    Lifecycle(w, codec, trace);
    var r := RunSpec(w, codec, START, trace);
    NoCleanup(trace.steps);
    if |r.log| > 0 {
      FullLogStart(trace.steps);
      assert r.log[0] == FullLog(trace.steps)[..1][0];
    }
  }

  lemma {:induction false} NoCleanup(steps: seq<Step>)
    ensures Cleanup !in FullLog(steps)
  {
    if |steps| > 0 {
      NoCleanup(steps[..|steps| - 1]);
    }
  }

  /** Another cleanup gives the same run, outcome and step count. */
  lemma CleanupIgnored(w: World, codec: Codec, trace: Trace, cleanup: seq<Call> -> Answer<()>)
    ensures var v := w.(driver := w.driver.(cleanup := cleanup));
      RunSpec(v, codec, START, trace) == RunSpec(w, codec, START, trace)
  {
    CleanupIgnoredByBody(w, w.(driver := w.driver.(cleanup := cleanup)), codec, trace);
  }

  lemma CleanupIgnoredByBody(w: World, v: World, codec: Codec, trace: Trace)
    requires SameButCleanup(w, v)
    ensures BodySpec(v, codec, START, trace) == BodySpec(w, codec, START, trace)
  {
    CleanupIgnoredByInitialize(w, v);
    CleanupIgnoredByPlay(w, v, codec, InitializeSpec(w, START).0, trace);
  }

  lemma CleanupIgnoredByInitialize(w: World, v: World)
    requires SameButCleanup(w, v)
    ensures InitializeSpec(v, START) == InitializeSpec(w, START)
  {
  }

  lemma CleanupIgnoredByPlay(w: World, v: World, codec: Codec, r: Run, trace: Trace)
    requires SameButCleanup(w, v)
    ensures PlaySpec(v, codec, r, trace) == PlaySpec(w, codec, r, trace)
  {
    CleanupIgnoredByObserve(w, v, codec, r, trace.initial, None, None);
    var (r2, e2) := ObserveSpec(w, codec, r, trace.initial, None, None);
    CleanupIgnoredByLoop(w, v, codec, r2, trace.steps);
  }

  /** Two worlds that differ at most in the answer to cleanup. */
  ghost predicate SameButCleanup(w: World, v: World) {
    && v.driver.initialize == w.driver.initialize && v.driver.apply == w.driver.apply
    && v.driver.observe == w.driver.observe && v.caller == w.caller && v.deadline == w.deadline
  }

  lemma CleanupIgnoredByObserve(
      w: World, v: World, codec: Codec, r: Run, expected: State, action: Option<Text>, source: Option<Source>)
    requires SameButCleanup(w, v)
    ensures ObserveSpec(v, codec, r, expected, action, source) == ObserveSpec(w, codec, r, expected, action, source)
  {
  }

  lemma CleanupIgnoredByStep(w: World, v: World, codec: Codec, r: Run, step: Step)
    requires SameButCleanup(w, v)
    ensures StepSpec(v, codec, r, step) == StepSpec(w, codec, r, step)
  {
    var (r1, e1) := Poll(w, r);
    var r2 := r1.(index := step.index, phase := Applying, applied := r1.applied + 1, log := r1.log + [Apply(step)]);
    var (r3, e3) := Poll(w, r2);
    CleanupIgnoredByObserve(w, v, codec, r3, step.expected, Some(step.action), Some(step.source));
  }

  lemma {:induction false} CleanupIgnoredByLoop(w: World, v: World, codec: Codec, r: Run, steps: seq<Step>)
    requires SameButCleanup(w, v)
    ensures LoopSpec(v, codec, r, steps) == LoopSpec(w, codec, r, steps)
  {
    if |steps| > 0 {
      CleanupIgnoredByLoop(w, v, codec, r, steps[..|steps| - 1]);
      var (r1, e1) := LoopSpec(w, codec, r, steps[..|steps| - 1]);
      CleanupIgnoredByStep(w, v, codec, r1, steps[|steps| - 1]);
    }
  }

  // ---------------------------------------------------------------- undisturbed runs

  ghost predicate Calm(w: World) {
    forall i: nat :: !w.caller(i) && !w.deadline(i)
  }

  function PhaseAt(p: nat): Phase {
    if p == 0 then Initializing else if p % 2 == 0 then Applying else Observing
  }

  function Blame<T>(answer: Answer<T>, p: nat): Outcome
    requires !answer.Returned?
  {
    DriverFailure(PhaseAt(p), p / 2, answer.message)
  }

  /** The outcome when the `p`-th call of a complete run is the first not to pass. */
  function FailureAt(w: World, codec: Codec, trace: Trace, p: nat): Outcome
    requires p < 2 * |trace.steps| + 2
  {
    var log := FullLog(trace.steps)[..p + 1];
    if p == 0 then (if w.driver.initialize(log).Returned? then Equivalent else Blame(w.driver.initialize(log), p))
    else if p % 2 == 0 then (if w.driver.apply(log).Returned? then Equivalent else Blame(w.driver.apply(log), p))
    else ObserveFailure(w, codec, log, p / 2, ExpectedAt(trace, p / 2), ActionAt(trace, p / 2), SourceAt(trace, p / 2))
  }

  function ActionAt(trace: Trace, k: nat): Option<Text>
    requires k <= |trace.steps|
  {
    if k == 0 then None else Some(trace.steps[k - 1].action)
  }

  function SourceAt(trace: Trace, k: nat): Option<Source>
    requires k <= |trace.steps|
  {
    if k == 0 then None else Some(trace.steps[k - 1].source)
  }

  /** The outcome when the last call of the log is an observation that does not pass. */
  function ObserveFailure(
      w: World, codec: Codec, log: seq<Call>, index: int, expected: State,
        action: Option<Text>, source: Option<Source>): Outcome {
    match w.driver.observe(log)
    case Returned(actual) =>
      if codec.encodeState(actual).None? then DriverFailure(Observing, index, INVALID_STATE)
      else Diverged(index, action, source, codec.path(expected, actual), expected, actual)
    case Canceled(m) => DriverFailure(Observing, index, m)
    case Refused(m) => DriverFailure(Observing, index, m)
    case Threw(m) => DriverFailure(Observing, index, m)
  }

  /** If the run has stopped, its last call is the first that did not pass. */
  ghost predicate Explained(w: World, codec: Codec, trace: Trace, r: Run, e: Option<Exn>) {
    (e.None? && r.outcome == Equivalent) ||
    (0 < |r.log| <= 2 * |trace.steps| + 2
     && !Passed(w, codec, trace, |r.log| - 1)
     && HandleSpec(w, r, e).outcome == FailureAt(w, codec, trace, |r.log| - 1))
  }

  lemma ObserveBlamed(w: World, codec: Codec, r: Run, expected: State, action: Option<Text>, source: Option<Source>)
    requires Calm(w) && r.outcome == Equivalent && codec.encodeState(expected).Some?
    ensures var (r1, e1) := ObserveSpec(w, codec, r, expected, action, source);
      || (e1.None? && r1.outcome == Equivalent)
      || (&& r1.log == r.log + [Observe] && !ObservedWell(w, codec, r1.log, expected)
          && HandleSpec(w, r1, e1).outcome == ObserveFailure(w, codec, r1.log, r.index, expected, action, source))
  {
  }

  lemma ObserveExplained(w: World, codec: Codec, trace: Trace, n: nat, r: Run)
    requires Calm(w) && n <= |trace.steps| && r.outcome == Equivalent && r.index == n
    requires r.log == FullLog(trace.steps)[..2 * n + 1]
    requires codec.encodeState(ExpectedAt(trace, n)).Some?
    ensures var (r1, e1) := ObserveSpec(w, codec, r, ExpectedAt(trace, n), ActionAt(trace, n), SourceAt(trace, n));
      Explained(w, codec, trace, r1, e1)
  {
    ObserveCall(trace.steps, n);
    assert (2 * n + 1) / 2 == n && (2 * n + 1) % 2 == 1;
    ObserveBlamed(w, codec, r, ExpectedAt(trace, n), ActionAt(trace, n), SourceAt(trace, n));
  }

  lemma RefusedExplained(w: World, codec: Codec, trace: Trace, n: nat, r: Run)
    requires Calm(w) && n < |trace.steps| && InOrder(trace.steps)
    requires r.outcome == Equivalent && r.log == FullLog(trace.steps)[..2 * n + 2]
    requires !w.driver.apply(r.log + [Apply(trace.steps[n])]).Returned?
    ensures var (r1, e1) := StepSpec(w, codec, r, trace.steps[n]); Explained(w, codec, trace, r1, e1)
  {
    FullLogStep(trace.steps, n);
    assert (2 * n + 2) / 2 == n + 1 && (2 * n + 2) % 2 == 0;
  }

  lemma ObservingExplained(w: World, codec: Codec, trace: Trace, n: nat, r3: Run)
    requires Calm(w) && n < |trace.steps| && r3.outcome == Equivalent && r3.index == n + 1
    requires r3.log == FullLog(trace.steps)[..2 * n + 2] + [Apply(trace.steps[n])]
    requires codec.encodeState(trace.steps[n].expected).Some?
    ensures
      var step := trace.steps[n];
      var (r1, e1) := ObserveSpec(w, codec, r3, step.expected, Some(step.action), Some(step.source));
      Explained(w, codec, trace, r1, e1)
  {
    FullLogStep(trace.steps, n);
    ObserveExplained(w, codec, trace, n + 1, r3);
  }

  lemma StepExplained(w: World, codec: Codec, trace: Trace, n: nat, r: Run)
    requires Calm(w) && n < |trace.steps| && InOrder(trace.steps)
    requires Going(w, codec, trace, n, r, None) && Explained(w, codec, trace, r, None)
    requires codec.encodeState(trace.steps[n].expected).Some?
    ensures var (r1, e1) := StepSpec(w, codec, r, trace.steps[n]); Explained(w, codec, trace, r1, e1)
  {
    if r.outcome == Equivalent {
      var step := trace.steps[n];
      var observing, r3 := StepShape(w, codec, r, step);
      if observing {
        ObservingExplained(w, codec, trace, n, r3);
      } else {
        RefusedExplained(w, codec, trace, n, r);
      }
    }
  }

  lemma {:induction false} LoopExplained(w: World, codec: Codec, trace: Trace, n: nat, r: Run)
    requires Calm(w) && n <= |trace.steps| && InOrder(trace.steps) && ExpectedEncode(codec, trace)
    requires Going(w, codec, trace, 0, r, None) && Explained(w, codec, trace, r, None)
    ensures var (r1, e1) := LoopSpec(w, codec, r, trace.steps[..n]); Explained(w, codec, trace, r1, e1)
  {
    if n > 0 {
      LoopGoes(w, codec, trace, n - 1, r);
      LoopExplained(w, codec, trace, n - 1, r);
      assert trace.steps[..n][..n - 1] == trace.steps[..n - 1];
      var (r1, e1) := LoopSpec(w, codec, r, trace.steps[..n - 1]);
      if e1.None? {
        assert ExpectedAt(trace, n) == trace.steps[n - 1].expected;
        StepExplained(w, codec, trace, n - 1, r1);
      }
    }
  }

  lemma RunExplained(w: World, codec: Codec, trace: Trace)
    requires Calm(w) && Lawful(codec, trace) && codec.traceCodes(trace) == {}
    ensures var (r, e) := BodySpec(w, codec, START, trace); Explained(w, codec, trace, r, e)
  {
    FullLogStart(trace.steps);
    InitializeGoes(w, codec, trace);
    var (r1, e1) := InitializeSpec(w, START);
    if r1.started {
      assert ExpectedAt(trace, 0) == trace.initial;
      ObserveGoes(w, codec, trace, 0, r1, None, None);
      ObserveExplained(w, codec, trace, 0, r1);
      var (r2, e2) := ObserveSpec(w, codec, r1, trace.initial, None, None);
      if e2.None? {
        LoopExplained(w, codec, trace, |trace.steps|, r2);
        assert trace.steps[..|trace.steps|] == trace.steps;
      }
    }
  }

  /** The `p`-th call of a complete run is the first that does not pass. */
  ghost predicate FirstFailure(w: World, codec: Codec, trace: Trace, p: nat)
    requires p < 2 * |trace.steps| + 2
  {
    !Passed(w, codec, trace, p) && forall q: nat | q < p :: Passed(w, codec, trace, q)
  }

  /** It went to the end, or its last call is the first that does not pass and is what is reported. */
  ghost predicate Stopped(w: World, codec: Codec, trace: Trace, r: Run) {
    && |r.log| <= 2 * |trace.steps| + 2 && r.log == FullLog(trace.steps)[..|r.log|]
    && (r.outcome == Equivalent ==> forall p: nat | p < 2 * |trace.steps| + 2 :: Passed(w, codec, trace, p))
    && (r.outcome != Equivalent ==>
          && |r.log| > 0 && FirstFailure(w, codec, trace, |r.log| - 1)
          && r.outcome == FailureAt(w, codec, trace, |r.log| - 1))
  }

  lemma ExplainedStops(w: World, codec: Codec, trace: Trace, r: Run, e: Option<Exn>)
    requires Lived(w, codec, trace, HandleSpec(w, r, e)) && Explained(w, codec, trace, r, e)
    ensures Stopped(w, codec, trace, HandleSpec(w, r, e))
  {
  }

  lemma RunStops(w: World, codec: Codec, trace: Trace)
    requires Calm(w) && Lawful(codec, trace) && codec.traceCodes(trace) == {}
    ensures Stopped(w, codec, trace, RunSpec(w, codec, START, trace))
  {
    Lifecycle(w, codec, trace);
    RunExplained(w, codec, trace);
    var (r, e) := BodySpec(w, codec, START, trace);
    ExplainedStops(w, codec, trace, r, e);
  }

  lemma FirstFailureIsOne(w: World, codec: Codec, trace: Trace, p: nat, q: nat)
    requires p < 2 * |trace.steps| + 2 && q < 2 * |trace.steps| + 2
    requires FirstFailure(w, codec, trace, p) && FirstFailure(w, codec, trace, q)
    ensures p == q
  {
  }

  /** With no cancellation, the engine is determined by the first call that does not pass: it stops there and reports
      it, and it reports Equivalent exactly when all pass. */
  lemma StopsAtFirstFailure(w: World, codec: Codec, trace: Trace)
    requires Calm(w) && Lawful(codec, trace) && codec.traceCodes(trace) == {}
    ensures var r := RunSpec(w, codec, START, trace);
      && (r.outcome == Equivalent <==> (forall p: nat | p < 2 * |trace.steps| + 2 :: Passed(w, codec, trace, p)))
      && (forall p: nat | p < 2 * |trace.steps| + 2 && FirstFailure(w, codec, trace, p) ::
            r.outcome == FailureAt(w, codec, trace, p) && r.log == FullLog(trace.steps)[..p + 1])
  {
    RunStops(w, codec, trace);
    var r := RunSpec(w, codec, START, trace);
    forall p: nat | p < 2 * |trace.steps| + 2 && FirstFailure(w, codec, trace, p)
      ensures r.outcome == FailureAt(w, codec, trace, p) && r.log == FullLog(trace.steps)[..p + 1]
    {
      FirstFailureIsOne(w, codec, trace, |r.log| - 1, p);
    }
  }

  /** Being cancelled is reported only when the caller cancelled, being late only when the deadline passed. */
  lemma CancellationHasACause(w: World, codec: Codec, trace: Trace)
    ensures RunSpec(w, codec, START, trace).outcome == Cancelled ==> exists i :: w.caller(i)
    ensures RunSpec(w, codec, START, trace).outcome == TimedOut ==> exists i :: w.deadline(i)
  {
    var (r, e) := BodySpec(w, codec, START, trace);
    NotCancelledYet(w, codec, trace);
  }

  predicate Quiet(r: Run) {
    r.outcome != Cancelled && r.outcome != TimedOut
  }

  lemma NotCancelledYet(w: World, codec: Codec, trace: Trace)
    ensures Quiet(BodySpec(w, codec, START, trace).0)
  {
    if codec.traceCodes(trace) == {} {
      var (r1, e1) := InitializeSpec(w, START);
      var (r2, e2) := ObserveSpec(w, codec, r1, trace.initial, None, None);
      LoopQuiet(w, codec, r2, trace.steps);
    }
  }

  lemma {:induction false} LoopQuiet(w: World, codec: Codec, r: Run, steps: seq<Step>)
    requires Quiet(r)
    ensures Quiet(LoopSpec(w, codec, r, steps).0)
  {
    if |steps| > 0 {
      LoopQuiet(w, codec, r, steps[..|steps| - 1]);
      StepQuiet(w, codec, LoopSpec(w, codec, r, steps[..|steps| - 1]).0, steps[|steps| - 1]);
    }
  }

  lemma StepQuiet(w: World, codec: Codec, r: Run, step: Step)
    requires Quiet(r)
    ensures Quiet(StepSpec(w, codec, r, step).0)
  {
  }
}
