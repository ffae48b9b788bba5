/** The abstract protocol: commands leased, committed and delivered over any number of entities. */
module Protocol {
  import opened Text

  datatype Status = Ready | Leased | Done | Dead | Rejected

  datatype Cmd = Cmd(entity: int, payload: int, status: Status, token: int, failures: int)

  datatype World = World(
    commands: seq<Cmd>, epochs: seq<int>, amounts: seq<int>, history: seq<int>, outbox: seq<int>, effects: seq<int>,
    acked: int, attempts: int, fenced: int, dead: int, rejected: int, serial: int)

  datatype Kind = Submit | Claim | Expire | Commit | Fail | Reject | Deliver | Ack

  datatype Op = Op(kind: Kind, id: int, entity: int, value: int)

  /** The initial world for `n` entities. */
  function Initial(n: nat): World {
    World([], seq(n, _ => 0), seq(n, _ => 0), [], [], [], 0, 0, 0, 0, 0, 0)
  }

  predicate Finalized(c: Cmd) {
    c.status == Done || c.status == Dead || c.status == Rejected
  }

  /** `xs.select(id => id != x)` */
  function Without(xs: seq<int>, x: int): seq<int> {
    if |xs| == 0 then []
    else (if xs[0] == x then [] else [xs[0]]) + Without(xs[1..], x)
  }

  predicate Eligible(w: World, id: int)
    requires 0 <= id < |w.commands|
  {
    w.commands[id].status == Ready &&
    forall i | 0 <= i < id :: w.commands[i].entity != w.commands[id].entity || Finalized(w.commands[i])
  }

  function Put(w: World, id: int, c: Cmd): World
    requires 0 <= id < |w.commands|
  {
    w.(commands := w.commands[id := c])
  }

  /** `applyOp`; an index outside a list is an evaluation error. */
  function ApplyOp(w: World, o: Op): Option<World> {
    if o.kind == Submit then
      Some(if o.id < |w.commands| then w
           else w.(commands := w.commands + [Cmd(o.entity, o.value, Ready, 0, 0)]))
    else if o.kind == Deliver then
      Some(w.(attempts := w.attempts + 1, effects := if o.id in w.effects then w.effects else w.effects + [o.id]))
    else if o.kind == Ack then
      Some(w.(acked := w.acked + 1, outbox := Without(w.outbox, o.id)))
    else if !(0 <= o.id < |w.commands|) then None
    else
      var c := w.commands[o.id];
      if o.kind == Claim then
        var serial := w.serial + 1;
        Some(if Eligible(w, o.id) then Put(w, o.id, c.(status := Leased, token := serial)).(serial := serial) else w)
      else if o.kind == Expire then Some(Put(w, o.id, c.(status := Ready)))
      else if o.kind == Commit then
        if c.status == Done && c.token == o.value then Some(w)
        else if c.status != Leased || c.token != o.value then Some(w.(fenced := w.fenced + 1))
        else if !(0 <= c.entity < |w.epochs|) || !(0 <= c.entity < |w.amounts|) then None
        else
          Some(Put(w, o.id, c.(status := Done)).(
            history := w.history + [o.id],
            outbox := w.outbox + [o.id],
            epochs := w.epochs[c.entity := w.epochs[c.entity] + 1],
            amounts := w.amounts[c.entity := w.amounts[c.entity] + c.payload]))
      else if o.kind == Fail then
        var dead := c.failures + 1 >= 3;
        Some(Put(w, o.id, c.(status := if dead then Dead else Ready, failures := c.failures + 1)).(
          dead := w.dead + if dead then 1 else 0))
      else Some(Put(w, o.id, c.(status := Rejected)).(rejected := w.rejected + 1))
  }

  function Run(w: World, ops: seq<Op>): Option<World>
    decreases |ops|
  {
    if |ops| == 0 then Some(w)
    else
      match ApplyOp(w, ops[0])
      case None => None
      case Some(w1) => Run(w1, ops[1..])
  }

  function Sum(xs: seq<int>): int {
    if |xs| == 0 then 0 else Sum(xs[..|xs| - 1]) + xs[|xs| - 1]
  }

  predicate Distinct(xs: seq<int>) {
    forall i, j | 0 <= i < |xs| && 0 <= j < |xs| :: i == j || xs[i] != xs[j]
  }

  predicate Safe(w: World) {
    && |w.history| == Sum(w.epochs)
    && |w.history| == |w.outbox| + w.acked
    && Distinct(w.history)
    && |w.effects| <= w.attempts
  }

  datatype Observation = Observation(
    submitted: int, epochs: seq<int>, amounts: seq<int>, commits: int,
      queued: int, acknowledged: int, fenced: int, dead: int,
    rejected: int, winners: seq<int>, deliveryAttempts: int, effects: int)

  /** The tokens of the done commands, in order. */
  function Winners(commands: seq<Cmd>): seq<int> {
    if |commands| == 0 then []
    else
      Winners(commands[..|commands| - 1]) +
      if commands[|commands| - 1].status == Done then [commands[|commands| - 1].token] else []
  }

  function Observe(w: World): Observation {
    Observation(|w.commands|, w.epochs, w.amounts, |w.history|, |w.outbox|, w.acked, w.fenced, w.dead, w.rejected,
                Winners(w.commands), w.attempts, |w.effects|)
  }

  // ---------------------------------------------------------------- lists

  lemma {:induction false} SumUpdate(xs: seq<int>, i: int, x: int)
    requires 0 <= i < |xs|
    ensures Sum(xs[i := x]) == Sum(xs) - xs[i] + x
  {
    var last := |xs| - 1;
    if i == last {
      assert xs[i := x][..last] == xs[..last];
    } else {
      SumUpdate(xs[..last], i, x);
      assert xs[i := x][..last] == xs[..last][i := x];
    }
  }

  lemma {:induction false} SumZero(n: nat)
    ensures Sum(seq(n, _ => 0)) == 0
  {
    if n > 0 {
      SumZero(n - 1);
      assert seq(n, _ => 0)[..n - 1] == seq(n - 1, _ => 0);
    }
  }

  lemma {:induction false} WithoutSpec(xs: seq<int>, x: int)
    ensures forall y :: y in Without(xs, x) <==> y in xs && y != x
    ensures x !in xs ==> Without(xs, x) == xs
    ensures Distinct(xs) ==> Distinct(Without(xs, x))
    ensures Distinct(xs) && x in xs ==> |Without(xs, x)| == |xs| - 1
  {
    if |xs| > 0 {
      WithoutSpec(xs[1..], x);
      assert xs == [xs[0]] + xs[1..];
      if Distinct(xs) {
        RestDistinct(xs);
      }
    }
  }

  lemma RestDistinct(xs: seq<int>)
    requires |xs| > 0 && Distinct(xs)
    ensures Distinct(xs[1..]) && xs[0] !in xs[1..]
  {
    forall i, j | 0 <= i < |xs| - 1 && 0 <= j < |xs| - 1
      ensures i == j || xs[1..][i] != xs[1..][j]
    {
      assert xs[i + 1] == xs[1..][i] && xs[j + 1] == xs[1..][j];
    }
  }

  lemma AppendDistinct(xs: seq<int>, x: int)
    requires Distinct(xs) && x !in xs
    ensures Distinct(xs + [x])
  {
  }

  // ---------------------------------------------------------------- an inductive strengthening of safe

  /** What `safe` needs to be kept, apart from the count of acknowledgments: the committed commands are the finished
      ones, and the outbox lists some of them. */
  predicate Base(w: World) {
    && |w.history| == Sum(w.epochs) && Distinct(w.history) && |w.effects| <= w.attempts
    && Distinct(w.outbox)
    && |w.amounts| == |w.epochs|
    && (forall i | 0 <= i < |w.commands| :: 0 <= w.commands[i].entity < |w.epochs|)
    && (forall i | 0 <= i < |w.commands| :: w.commands[i].status == Done <==> i in w.history)
    && (forall i | i in w.history :: 0 <= i < |w.commands|)
    && (forall i | i in w.outbox :: i in w.history)
  }

  predicate Core(w: World) {
    Base(w) && |w.history| == |w.outbox| + w.acked
  }

  /** The enabling condition: the four operations without a guard of their own are not used on a finished command or an
      absent message. */
  predicate Guarded(w: World, o: Op) {
    match o.kind
    case Submit => o.id < |w.commands| || 0 <= o.entity < |w.epochs|
    case Ack => o.id in w.outbox
    case Deliver => true
    case Claim => 0 <= o.id < |w.commands|
    case Commit => 0 <= o.id < |w.commands|
    case _ => 0 <= o.id < |w.commands| && w.commands[o.id].status != Done
  }

  predicate GuardedRun(w: World, ops: seq<Op>)
    decreases |ops|
  {
    |ops| == 0 ||
    (Guarded(w, ops[0]) && ApplyOp(w, ops[0]).Some? && GuardedRun(ApplyOp(w, ops[0]).value, ops[1..]))
  }

  lemma InitialCore(n: nat)
    ensures Core(Initial(n))
  {
    SumZero(n);
  }

  lemma CommitKeepsBase(w: World, o: Op)
    requires Base(w) && Guarded(w, o) && o.kind == Commit
    ensures ApplyOp(w, o).Some? && Base(ApplyOp(w, o).value)
  {
    var c := w.commands[o.id];
    if c.status == Leased && c.token == o.value {
      assert o.id !in w.history;
      SumUpdate(w.epochs, c.entity, w.epochs[c.entity] + 1);
      AppendDistinct(w.history, o.id);
      AppendDistinct(w.outbox, o.id);
    }
  }

  /** Acknowledging an absent message spoils the count of acknowledgments and nothing else. */
  lemma KeepsBase(w: World, o: Op)
    requires Base(w) && (o.kind == Ack || Guarded(w, o))
    ensures ApplyOp(w, o).Some? && Base(ApplyOp(w, o).value)
  {
    match o.kind {
      case Commit => CommitKeepsBase(w, o);
      case Ack => WithoutSpec(w.outbox, o.id);
      case _ =>
    }
  }

  /** Each operation within its enabling condition is defined and keeps the invariant. */
  lemma GuardedKeepsCore(w: World, o: Op)
    requires Core(w) && Guarded(w, o)
    ensures ApplyOp(w, o).Some? && Core(ApplyOp(w, o).value)
  {
    KeepsBase(w, o);
    WithoutSpec(w.outbox, o.id);
  }

  /** `safe` holds after every enabled sequence of operations of any length, over any number of entities. */
  lemma {:induction false} SafeAlways(w: World, ops: seq<Op>)
    requires Core(w) && GuardedRun(w, ops)
    ensures Run(w, ops).Some? && Core(Run(w, ops).value) && Safe(Run(w, ops).value)
    decreases |ops|
  {
    if |ops| > 0 {
      GuardedKeepsCore(w, ops[0]);
      SafeAlways(ApplyOp(w, ops[0]).value, ops[1..]);
    }
  }

  // ---------------------------------------------------------------- the enabling condition is exact

  /** Every command before a claimed or finished one of its entity is final. */
  predicate Fifo(w: World) {
    forall i, j |
      0 <= i < j < |w.commands| && w.commands[i].entity == w.commands[j].entity && w.commands[j].status != Ready ::
      Finalized(w.commands[i])
  }

  /** The operations that commit an already committed command once more. */
  function Recommit(id: int, serial: int): seq<Op> {
    [Op(Expire, id, 0, 0), Op(Claim, id, 0, 0), Op(Commit, id, 0, serial + 1)]
  }

  lemma RepeatedNotDistinct(xs: seq<int>, x: int)
    requires x in xs
    ensures !Distinct(xs + [x])
  {
    var k :| 0 <= k < |xs| && xs[k] == x;
    assert (xs + [x])[k] == (xs + [x])[|xs|];
  }

  lemma ClaimExpired(w: World, id: int)
    requires 0 <= id < |w.commands| && w.commands[id].status == Ready
    requires forall i | 0 <= i < id :: w.commands[i].entity != w.commands[id].entity || Finalized(w.commands[i])
    ensures
      var claimed := w.commands[id].(status := Leased, token := w.serial + 1);
      ApplyOp(w, Op(Claim, id, 0, 0)) == Some(Put(w, id, claimed).(serial := w.serial + 1))
  {
    assert Eligible(w, id);
  }

  lemma CommitLeased(w: World, id: int)
    requires 0 <= id < |w.commands| && w.commands[id].status == Leased
    requires 0 <= w.commands[id].entity < |w.epochs| == |w.amounts|
    ensures
      var committed := ApplyOp(w, Op(Commit, id, 0, w.commands[id].token));
      committed.Some? && committed.value.history == w.history + [id]
  {
  }

  lemma RecommitBreaksSafe(w: World, id: int)
    requires 0 <= id < |w.commands| && w.commands[id].status != Done && id in w.history
    requires 0 <= w.commands[id].entity < |w.epochs| == |w.amounts|
    requires forall i | 0 <= i < id :: w.commands[i].entity != w.commands[id].entity || Finalized(w.commands[i])
    ensures GuardedRun(w, Recommit(id, w.serial))
    ensures Run(w, Recommit(id, w.serial)).Some? && !Safe(Run(w, Recommit(id, w.serial)).value)
  {
    var ops, c := Recommit(id, w.serial), w.commands[id];
    var w1 := Put(w, id, c.(status := Ready));
    var w2 := Put(w1, id, c.(status := Leased, token := w.serial + 1)).(serial := w.serial + 1);
    assert ApplyOp(w1, ops[1]) == Some(w2) by {
      ClaimExpired(w1, id);
    }
    CommitLeased(w2, id);
    var w3 := ApplyOp(w2, ops[2]).value;
    RunThree(w, w1, w2, w3, ops);
    assert !Distinct(w3.history) by {
      RepeatedNotDistinct(w.history, id);
    }
  }

  lemma RunCons(w: World, o: Op, w1: World, rest: seq<Op>, last: World)
    requires Guarded(w, o) && ApplyOp(w, o) == Some(w1)
    requires GuardedRun(w1, rest) && Run(w1, rest) == Some(last)
    ensures GuardedRun(w, [o] + rest) && Run(w, [o] + rest) == Some(last)
  {
    assert ([o] + rest)[1..] == rest;
  }

  lemma RunThree(w: World, w1: World, w2: World, w3: World, ops: seq<Op>)
    requires |ops| == 3
    requires Guarded(w, ops[0]) && ApplyOp(w, ops[0]) == Some(w1)
    requires Guarded(w1, ops[1]) && ApplyOp(w1, ops[1]) == Some(w2)
    requires Guarded(w2, ops[2]) && ApplyOp(w2, ops[2]) == Some(w3)
    ensures GuardedRun(w, ops) && Run(w, ops) == Some(w3)
  {
    RunCons(w2, ops[2], w3, [], w3);
    RunCons(w1, ops[1], w2, [ops[2]] + [], w3);
    RunCons(w, ops[0], w1, [ops[1]] + ([ops[2]] + []), w3);
    assert ops == [ops[0]] + ([ops[1]] + ([ops[2]] + []));
  }

  /** Only a leased command is expired, failed or rejected. */
  predicate Enabled(w: World, o: Op) {
    Guarded(w, o) &&
    (o.kind == Expire || o.kind == Fail || o.kind == Reject ==> w.commands[o.id].status == Leased)
  }

  lemma EnabledKeepsFifo(w: World, o: Op)
    requires Core(w) && Fifo(w) && Enabled(w, o)
    ensures ApplyOp(w, o).Some? && Fifo(ApplyOp(w, o).value)
  {
    GuardedKeepsCore(w, o);
    if o.kind == Claim && Eligible(w, o.id) {
      ClaimExpired(w, o.id);
    }
  }

  ghost predicate StaysSafe(w: World) {
    forall ops :: GuardedRun(w, ops) && Run(w, ops).Some? ==> Safe(Run(w, ops).value)
  }

  /** The predecessors of a command that are not final, from the `k`-th on, rejected; then the command committed
      again. */
  lemma {:induction false} FinaliseAndRecommit(w: World, id: int, k: nat) returns (ops: seq<Op>)
    requires 0 <= k <= id < |w.commands| && w.commands[id].status != Done && id in w.history
    requires 0 <= w.commands[id].entity < |w.epochs| == |w.amounts|
    requires forall i | 0 <= i < k :: w.commands[i].entity != w.commands[id].entity || Finalized(w.commands[i])
    ensures GuardedRun(w, ops) && Run(w, ops).Some? && !Safe(Run(w, ops).value)
    decreases id - k
  {
    if k == id {
      ops := Recommit(id, w.serial);
      RecommitBreaksSafe(w, id);
    } else if w.commands[k].entity != w.commands[id].entity || Finalized(w.commands[k]) {
      ops := FinaliseAndRecommit(w, id, k + 1);
    } else {
      var reject := Op(Reject, k, 0, 0);
      var w1 := ApplyOp(w, reject).value;
      var rest := FinaliseAndRecommit(w1, id, k + 1);
      ops := [reject] + rest;
      assert ops[1..] == rest;
    }
  }

  /** In every state of the invariant, an operation leaves the protocol safe under all enabled continuations exactly
      when it is within its enabling condition. So expiring, failing or rejecting a committed command, or
      acknowledging an absent message, does break `safe`, at once or after further enabled operations. */
  lemma GuardIsExact(w: World, o: Op)
    requires Core(w) && ApplyOp(w, o).Some?
    requires o.kind == Submit ==> o.id < |w.commands| || 0 <= o.entity < |w.epochs|
    ensures Guarded(w, o) <==> StaysSafe(ApplyOp(w, o).value)
  {
    var w1 := ApplyOp(w, o).value;
    if Guarded(w, o) {
      GuardedKeepsCore(w, o);
      forall ops | GuardedRun(w1, ops) && Run(w1, ops).Some?
        ensures Safe(Run(w1, ops).value)
      {
        SafeAlways(w1, ops);
      }
    } else if o.kind == Ack {
      WithoutSpec(w.outbox, o.id);
      assert GuardedRun(w1, []) && Run(w1, []) == Some(w1);
    } else {
      assert w.commands[o.id].status == Done;
      var ops := FinaliseAndRecommit(w1, o.id, 0);
    }
  }

  /** One command of one entity, submitted, claimed and committed. */
  const COMMITTED: World := World([Cmd(0, 1, Done, 1, 0)], [1], [1], [0], [0], [], 0, 0, 0, 0, 0, 1)

  const ONE_COMMIT: seq<Op> := [Op(Submit, 0, 0, 1), Op(Claim, 0, 0, 0), Op(Commit, 0, 0, 1)]

  lemma CommittedIsReached()
    ensures GuardedRun(Initial(1), ONE_COMMIT) && Run(Initial(1), ONE_COMMIT) == Some(COMMITTED)
  {
    var w1 := Initial(1).(commands := [Cmd(0, 1, Ready, 0, 0)]);
    var w2 := w1.(commands := [Cmd(0, 1, Leased, 1, 0)], serial := 1);
    assert Initial(1).epochs == Initial(1).amounts == [0];
    assert Initial(1).commands + [Cmd(0, 1, Ready, 0, 0)] == w1.commands;
    assert Eligible(w1, 0);
    assert w1.commands[0 := Cmd(0, 1, Leased, 1, 0)] == w2.commands;
    assert w2.commands[0 := Cmd(0, 1, Done, 1, 0)] == COMMITTED.commands;
    assert [0][0 := 1] == [1] && [] + [0] == [0];
    assert ApplyOp(w2, ONE_COMMIT[2]) == Some(COMMITTED);
    RunThree(Initial(1), w1, w2, COMMITTED, ONE_COMMIT);
  }

  /** Expired, claimed and committed again, it is in the history twice. */
  lemma UnguardedExpireBreaksSafe()
    ensures GuardedRun(Initial(1), ONE_COMMIT) && Run(Initial(1), ONE_COMMIT) == Some(COMMITTED)
    ensures !Guarded(COMMITTED, Op(Expire, 0, 0, 0))
    ensures Run(COMMITTED, Recommit(0, 1)).Some? && !Safe(Run(COMMITTED, Recommit(0, 1)).value)
  {
    CommittedIsReached();
    var expired := COMMITTED.(commands := [Cmd(0, 1, Ready, 1, 0)]);
    RecommitBreaksSafe(expired, 0);
    assert COMMITTED.commands[0 := Cmd(0, 1, Ready, 1, 0)] == expired.commands;
    assert expired.commands[0 := Cmd(0, 1, Ready, 1, 0)] == expired.commands;
    assert ApplyOp(COMMITTED, Recommit(0, 1)[0]) == Some(expired) == ApplyOp(expired, Recommit(0, 1)[0]);
  }
}
