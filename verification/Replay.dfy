/** The replay engine `Replay.run`. The driver may answer anything and either token may be cancelled at any poll:
    a driver's answer is any function of the calls it has received so far, a token any function of the poll number. */
module Replay {
  import opened Text
  import opened Trace
  import opened DivergencePath

  datatype Call = Initialize | Apply(step: Step) | Observe | Cleanup

  /** What a call to the driver comes back with: a result, an error result, or an exception. */
  datatype Answer<+T> = Returned(value: T) | Refused(message: Text) | Canceled(message: Text) | Threw(message: Text)

  datatype Driver = Driver(
    initialize: seq<Call> -> Answer<()>,
    apply: seq<Call> -> Answer<()>,
    observe: seq<Call> -> Answer<State>,
    cleanup: seq<Call> -> Answer<()>)

  datatype World = World(driver: Driver, caller: nat -> bool, deadline: nat -> bool)

  datatype Exn = OperationCanceled(message: Text) | Other(message: Text)

  datatype Phase = Validating | Initializing | Observing | Applying

  datatype Outcome =
    | Equivalent
    | Diverged(step: int, action: Option<Text>, source: Option<Source>, path: Text, expected: State, actual: State)
    | InvalidTrace(codes: Codes)
    | DriverFailure(phase: Phase, step: int, message: Text)
    | Cancelled
    | TimedOut

  datatype Report = Report(outcome: Outcome, cleanupFailure: Option<Text>, appliedSteps: nat)

  /** What the engine uses of the codec. */
  datatype Codec = Codec(
    encodeState: State -> Option<Text>,
    stateCodes: State -> Codes,
    traceCodes: Trace -> Codes,
    path: (State, State) -> Text)

  /** The codec of `QuintReplay`. */
  function CanonicalCodec(hash: Hash): Codec {
    Codec(s => EncodeState(hash, s), s => ValidateState(hash, s), t => ValidateTrace(hash, t),
          (expected: State, actual: State) => Path(expected.bindings, actual.bindings))
  }

  /** The engine's mutable locals, and the calls it has made. */
  datatype Run = Run(
    log: seq<Call>, polls: nat, started: bool, phase: Phase, index: int, applied: nat, outcome: Outcome)

  const INVALID_STATE: Text := Units("Invalid observed state")
  /** The message of the exception that a cancelled token throws. */
  const CANCELED: Text := Units("The operation was canceled.")

  // ---------------------------------------------------------------- the engine as a function

  /** `ThrowIfCancellationRequested` on the linked token. */
  function Poll(w: World, r: Run): (Run, Option<Exn>) {
    (r.(polls := r.polls + 1),
     if w.caller(r.polls) || w.deadline(r.polls) then Some(OperationCanceled(CANCELED)) else None)
  }

  function Fail(r: Run, message: Text): Run {
    r.(outcome := DriverFailure(r.phase, r.index, message))
  }

  /** The four-way match on the two encodings. */
  function Judge(
      codec: Codec, r: Run, expected: State, actual: State, action: Option<Text>, source: Option<Source>): Run {
    var e, a := codec.encodeState(expected), codec.encodeState(actual);
    if a.None? then Fail(r, INVALID_STATE)
    else if e.None? then r.(outcome := InvalidTrace(codec.stateCodes(expected)))
    else if e == a then r
    else r.(outcome := Diverged(r.index, action, source, codec.path(expected, actual), expected, actual))
  }

  function ObserveSpec(
      w: World, codec: Codec, r: Run, expected: State, action: Option<Text>, source: Option<Source>):
      (Run, Option<Exn>)
  {
    var (r1, e1) := Poll(w, r.(phase := Observing));
    if e1.Some? then (r1, e1)
    else
      var r2 := r1.(log := r1.log + [Observe]);
      match w.driver.observe(r2.log)
      case Canceled(m) => (r2, Some(OperationCanceled(m)))
      case Threw(m) => (r2, Some(Other(m)))
      case Refused(m) =>
        var (r3, e3) := Poll(w, r2);
        if e3.Some? then (r3, e3) else (Fail(r3, m), None)
      case Returned(actual) =>
        var (r3, e3) := Poll(w, r2);
        if e3.Some? then (r3, e3) else (Judge(codec, r3, expected, actual, action, source), None)
  }

  function StepSpec(w: World, codec: Codec, r: Run, step: Step): (Run, Option<Exn>) {
    if r.outcome != Equivalent then (r, None)
    else
      var (r1, e1) := Poll(w, r);
      if e1.Some? then (r1, e1)
      else
        var r2 := r1.(index := step.index, phase := Applying, applied := r1.applied + 1, log := r1.log + [Apply(step)]);
        match w.driver.apply(r2.log)
        case Canceled(m) => (r2, Some(OperationCanceled(m)))
        case Threw(m) => (r2, Some(Other(m)))
        case Refused(m) =>
          var (r3, e3) := Poll(w, r2);
          if e3.Some? then (r3, e3) else (Fail(r3, m), None)
        case Returned(_) =>
          var (r3, e3) := Poll(w, r2);
          if e3.Some? then (r3, e3)
          else ObserveSpec(w, codec, r3, step.expected, Some(step.action), Some(step.source))
  }

  /** The step loop after `|steps|` rounds; an exception ends it. */
  function LoopSpec(w: World, codec: Codec, r: Run, steps: seq<Step>): (Run, Option<Exn>) {
    if |steps| == 0 then (r, None)
    else
      var (r1, e1) := LoopSpec(w, codec, r, steps[..|steps| - 1]);
      if e1.Some? then (r1, e1) else StepSpec(w, codec, r1, steps[|steps| - 1])
  }

  lemma LoopStep(w: World, codec: Codec, r: Run, steps: seq<Step>, i: nat)
    requires i < |steps| && LoopSpec(w, codec, r, steps[..i]).1.None?
    ensures
      var r1 := LoopSpec(w, codec, r, steps[..i]).0;
      LoopSpec(w, codec, r, steps[..i + 1]) == if r1.outcome == Equivalent then StepSpec(w, codec, r1, steps[i])
                                               else (r1, None)
  {
    assert steps[..i + 1][..i] == steps[..i];
  }

  const START: Run := Run([], 0, false, Validating, 0, 0, Equivalent)

  /** The token check and the call to `Initialize`. */
  function InitializeSpec(w: World, r: Run): (Run, Option<Exn>) {
    var (r1, e1) := Poll(w, r);
    if e1.Some? then (r1, e1)
    else
      var r2 := r1.(phase := Initializing, log := r1.log + [Initialize]);
      match w.driver.initialize(r2.log)
      case Canceled(m) => (r2, Some(OperationCanceled(m)))
      case Threw(m) => (r2, Some(Other(m)))
      case Refused(m) => (Fail(r2, m), None)
      case Returned(_) => (r2.(started := true), None)
  }

  /** The initial observation and the step loop. */
  function PlaySpec(w: World, codec: Codec, r: Run, trace: Trace): (Run, Option<Exn>) {
    var (r1, e1) := ObserveSpec(w, codec, r, trace.initial, None, None);
    if e1.Some? then (r1, e1) else LoopSpec(w, codec, r1, trace.steps)
  }

  /** The body of the `try`. */
  function BodySpec(w: World, codec: Codec, r: Run, trace: Trace): (Run, Option<Exn>) {
    var codes := codec.traceCodes(trace);
    if codes != {} then (r.(outcome := InvalidTrace(codes)), None)
    else
      var (r1, e1) := InitializeSpec(w, r);
      if e1.Some? || !r1.started then (r1, e1) else PlaySpec(w, codec, r1, trace)
  }

  /** The exception handlers. */
  function HandleSpec(w: World, r: Run, e: Option<Exn>): Run {
    match e
    case None => r
    case Some(OperationCanceled(m)) =>
      if w.caller(r.polls) then r.(outcome := Cancelled)
      else if w.deadline(r.polls) then r.(outcome := TimedOut)
      else Fail(r, m)
    case Some(Other(m)) => Fail(r, m)
  }

  function CleanupSpec(w: World, r: Run): (seq<Call>, Option<Text>) {
    if !r.started then (r.log, None)
    else
      var log := r.log + [Cleanup];
      match w.driver.cleanup(log)
      case Returned(_) => (log, None)
      case Refused(m) => (log, Some(m))
      case Canceled(m) => (log, Some(m))
      case Threw(m) => (log, Some(m))
  }

  /** Everything up to cleanup. */
  function RunSpec(w: World, codec: Codec, r: Run, trace: Trace): Run {
    var (r1, e1) := BodySpec(w, codec, r, trace);
    HandleSpec(w, r1, e1)
  }

  function ReportSpec(w: World, r: Run): Report {
    Report(r.outcome, CleanupSpec(w, r).1, r.applied)
  }

  // ---------------------------------------------------------------- the engine as it runs

  class Engine {
    const world: World
    const codec: Codec
    var log: seq<Call>
    var polls: nat
    var started: bool
    var phase: Phase
    var index: int
    var applied: nat
    var outcome: Outcome
    var cleanupFailure: Option<Text>

    constructor (world: World, codec: Codec)
      ensures this.world == world && this.codec == codec && View() == START && cleanupFailure == None
    {
      this.world := world;
      this.codec := codec;
      log, polls, started, phase, index, applied, outcome := [], 0, false, Validating, 0, 0, Equivalent;
      cleanupFailure := None;
    }

    ghost function View(): Run
      reads this
    {
      Run(log, polls, started, phase, index, applied, outcome)
    }

    method ThrowIfCancellationRequested() returns (raised: Option<Exn>)
      modifies this`polls
      ensures (View(), raised) == Poll(world, old(View()))
    {
      raised := if world.caller(polls) || world.deadline(polls) then Some(OperationCanceled(CANCELED)) else None;
      polls := polls + 1;
    }

    method FailWith(message: Text)
      modifies this`outcome
      ensures View() == Fail(old(View()), message)
    {
      outcome := DriverFailure(phase, index, message);
    }

    method ObserveState(expected: State, action: Option<Text>, source: Option<Source>) returns (raised: Option<Exn>)
      modifies this`phase, this`polls, this`log, this`outcome
      ensures (View(), raised) == ObserveSpec(world, codec, old(View()), expected, action, source)
    {
      phase := Observing;
      raised := ThrowIfCancellationRequested();
      if raised.Some? {
        return;
      }
      log := log + [Observe];
      var observation := world.driver.observe(log);
      if observation.Canceled? {
        return Some(OperationCanceled(observation.message));
      }
      if observation.Threw? {
        return Some(Other(observation.message));
      }
      raised := ThrowIfCancellationRequested();
      if raised.Some? {
        return;
      }
      if observation.Refused? {
        FailWith(observation.message);
      } else {
        var actual := observation.value;
        var e, a := codec.encodeState(expected), codec.encodeState(actual);
        if a.None? {
          FailWith(INVALID_STATE);
        } else if e.None? {
          outcome := InvalidTrace(codec.stateCodes(expected));
        } else if e != a {
          outcome := Diverged(index, action, source, codec.path(expected, actual), expected, actual);
        }
      }
    }

    method ApplyStep(step: Step) returns (raised: Option<Exn>)
      requires outcome == Equivalent
      modifies this`phase, this`polls, this`log, this`outcome, this`index, this`applied
      ensures (View(), raised) == StepSpec(world, codec, old(View()), step)
    {
      raised := ThrowIfCancellationRequested();
      if raised.Some? {
        return;
      }
      index := step.index;
      phase := Applying;
      applied := applied + 1;
      log := log + [Apply(step)];
      var result := world.driver.apply(log);
      if result.Canceled? {
        return Some(OperationCanceled(result.message));
      }
      if result.Threw? {
        return Some(Other(result.message));
      }
      raised := ThrowIfCancellationRequested();
      if raised.Some? {
        return;
      }
      if result.Refused? {
        FailWith(result.message);
      } else {
        raised := ObserveState(step.expected, Some(step.action), Some(step.source));
      }
    }

    /** The `for` loop over the steps. */
    method ApplySteps(steps: seq<Step>) returns (raised: Option<Exn>)
      modifies this`phase, this`polls, this`log, this`outcome, this`index, this`applied
      ensures (View(), raised) == LoopSpec(world, codec, old(View()), steps)
    {
      var i := 0;
      ghost var start := View();
      while i < |steps|
        invariant 0 <= i <= |steps|
        invariant (View(), None) == LoopSpec(world, codec, start, steps[..i])
      {
        LoopStep(world, codec, start, steps, i);
        if outcome == Equivalent {
          raised := ApplyStep(steps[i]);
          assert (View(), raised) == LoopSpec(world, codec, start, steps[..i + 1]);
          if raised.Some? {
            RaisedEndsLoop(world, codec, start, steps, i + 1);
            return;
          }
        }
        i := i + 1;
      }
      assert steps[..i] == steps;
      raised := None;
    }

    method InitializeDriver() returns (raised: Option<Exn>)
      modifies this`phase, this`polls, this`log, this`outcome, this`started
      ensures (View(), raised) == InitializeSpec(world, old(View()))
    {
      raised := ThrowIfCancellationRequested();
      if raised.Some? {
        return;
      }
      phase := Initializing;
      log := log + [Initialize];
      var initialized := world.driver.initialize(log);
      match initialized {
        case Canceled(m) => raised := Some(OperationCanceled(m));
        case Threw(m) => raised := Some(Other(m));
        case Refused(m) => FailWith(m);
        case Returned(_) => started := true;
      }
    }

    method Play(trace: Trace) returns (raised: Option<Exn>)
      modifies this`phase, this`polls, this`log, this`outcome, this`index, this`applied
      ensures (View(), raised) == PlaySpec(world, codec, old(View()), trace)
    {
      raised := ObserveState(trace.initial, None, None);
      if raised.None? {
        raised := ApplySteps(trace.steps);
      }
    }

    /** The body of the `try`. */
    method Body(trace: Trace) returns (raised: Option<Exn>)
      requires !started
      modifies this`phase, this`polls, this`log, this`outcome, this`index, this`applied, this`started
      ensures (View(), raised) == BodySpec(world, codec, old(View()), trace)
    {
      var errors := codec.traceCodes(trace);
      if errors != {} {
        outcome := InvalidTrace(errors);
        raised := None;
      } else {
        raised := InitializeDriver();
        if raised.None? && started {
          raised := Play(trace);
        }
      }
    }

    /** The `with` clauses. */
    method Handle(raised: Option<Exn>)
      modifies this`outcome
      ensures View() == HandleSpec(world, old(View()), raised)
    {
      match raised {
        case None =>
        case Some(OperationCanceled(m)) =>
          if world.caller(polls) {
            outcome := Cancelled;
          } else if world.deadline(polls) {
            outcome := TimedOut;
          } else {
            FailWith(m);
          }
        case Some(Other(m)) => FailWith(m);
      }
    }

    method CleanUp()
      requires cleanupFailure == None
      modifies this`log, this`cleanupFailure
      ensures (log, cleanupFailure) == CleanupSpec(world, old(View()))
    {
      if started {
        log := log + [Cleanup];
        var cleaned := world.driver.cleanup(log);
        match cleaned {
          case Returned(_) =>
          case Refused(m) => cleanupFailure := Some(m);
          case Canceled(m) => cleanupFailure := Some(m);
          case Threw(m) => cleanupFailure := Some(m);
        }
      }
    }

    /** `Replay.run`, up to the handlers. */
    method RunUncleaned(trace: Trace)
      requires !started
      modifies this`phase, this`polls, this`log, this`outcome, this`index, this`applied, this`started
      ensures View() == RunSpec(world, codec, old(View()), trace)
    {
      var raised := Body(trace);
      Handle(raised);
    }

    /** `Replay.run`. */
    method RunTrace(trace: Trace) returns (report: Report)
      requires !started && cleanupFailure == None
      modifies this
      ensures var r := RunSpec(world, codec, old(View()), trace);
        report == ReportSpec(world, r) && log == CleanupSpec(world, r).0
    {
      RunUncleaned(trace);
      CleanUp();
      report := Report(outcome, cleanupFailure, applied);
    }
  }

  /** Once a round raises, the rounds that would follow change nothing. */
  lemma {:induction false} RaisedEndsLoop(w: World, codec: Codec, r: Run, steps: seq<Step>, n: nat)
    requires n <= |steps| && LoopSpec(w, codec, r, steps[..n]).1.Some?
    ensures LoopSpec(w, codec, r, steps) == LoopSpec(w, codec, r, steps[..n])
    decreases |steps|
  {
    if n == |steps| {
      assert steps[..n] == steps;
    } else {
      assert steps[..|steps| - 1][..n] == steps[..n];
      RaisedEndsLoop(w, codec, r, steps[..|steps| - 1], n);
    }
  }
}
