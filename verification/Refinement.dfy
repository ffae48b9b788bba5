/** The contract store refines the abstract protocol: every step is matched by zero or more of its operations. */
module Refinement {
  import opened Text
  import opened StoreSpec
  import opened StoreSystem
  import opened StoreInvariant
  import opened StoreSafety
  import P = Protocol

  // ---------------------------------------------------------------- moves of the abstract protocol

  /** An operation, or the serial advanced alone: the store draws the tokens of action leases from the same counter. */
  datatype Move = Do(op: P.Op) | Skip(count: nat)

  function Apply(w: P.World, m: Move): Option<P.World> {
    match m
    case Do(op) => P.ApplyOp(w, op)
    case Skip(count) => Some(w.(serial := w.serial + count))
  }

  /** An acknowledgment is counted even when the message is gone, so only `Ack` may be outside its enabling
      condition. */
  predicate Allowed(w: P.World, m: Move) {
    m.Do? && m.op.kind != P.Ack ==> P.Guarded(w, m.op)
  }

  /** Where the moves lead, if all are defined and allowed. */
  function RunMoves(w: P.World, moves: seq<Move>): Option<P.World> {
    if |moves| == 0 then Some(w)
    else
      var last := moves[|moves| - 1];
      match RunMoves(w, moves[..|moves| - 1])
      case None => None
      case Some(mid) => if Allowed(mid, last) then Apply(mid, last) else None
  }

  predicate Reaches(w: P.World, moves: seq<Move>, w1: P.World) {
    RunMoves(w, moves) == Some(w1)
  }

  lemma ReachesMore(w: P.World, moves: seq<Move>, mid: P.World, m: Move, w1: P.World)
    requires Reaches(w, moves, mid) && Allowed(mid, m) && Apply(mid, m) == Some(w1)
    ensures Reaches(w, moves + [m], w1)
  {
    assert (moves + [m])[..|moves|] == moves;
  }

  lemma ReachesOne(w: P.World, m: Move, w1: P.World)
    requires Allowed(w, m) && Apply(w, m) == Some(w1)
    ensures Reaches(w, [m], w1)
  {
    ReachesMore(w, [], w, m, w1);
    assert [] + [m] == [m];
  }

  lemma {:induction false} ReachesTrans(w: P.World, a: seq<Move>, mid: P.World, b: seq<Move>, w1: P.World)
    requires Reaches(w, a, mid) && Reaches(mid, b, w1)
    ensures Reaches(w, a + b, w1)
    decreases |b|
  {
    if |b| == 0 {
      assert a + b == a;
    } else {
      var n := |b| - 1;
      var near := RunMoves(mid, b[..n]).value;
      ReachesTrans(w, a, mid, b[..n], near);
      ReachesMore(w, a + b[..n], near, b[n], w1);
      assert a + b[..n] + [b[n]] == a + b;
    }
  }

  // ---------------------------------------------------------------- the simulation relation

  function StatusOf(status: Status): P.Status {
    match status
    case Ready => P.Ready
    case Leased => P.Leased
    case Succeeded => P.Done
    case Rejected => P.Status.Rejected
    case DeadLettered => P.Dead
  }

  function Min(a: int, b: int): int {
    if a < b then a else b
  }

  /** The store does not bound its attempts; below the abstract bound of three the two counts agree. */
  predicate Matches(es: seq<string>, row: RowValue, c: P.Cmd) {
    && 0 <= c.entity < |es| && es[c.entity] == row.record.entity
    && c.payload == row.record.event && c.status == StatusOf(row.record.status) && c.token == row.token
    && (c.status != P.Dead ==> c.failures == Min(row.record.attempts, 2))
  }

  predicate CommandsMatch(es: seq<string>, rows: seq<RowValue>, commands: seq<P.Cmd>) {
    |rows| == |commands| && forall i | 0 <= i < |rows| :: Matches(es, rows[i], commands[i])
  }

  /** The store's 32-bit state is the wrapped amount. */
  predicate BooksMatch(es: seq<string>, snapshots: map<string, Snapshot>, epochs: seq<int>, amounts: seq<int>) {
    && |epochs| == |es| && |amounts| == |es|
    && forall k | 0 <= k < |es| ::
         epochs[k] == SnapshotOf(snapshots, es[k]).epoch && Wrap32(amounts[k]) == SnapshotOf(snapshots, es[k]).state
  }

  function Ids(history: seq<Transition>): seq<int> {
    seq(|history|, k requires 0 <= k < |history| => history[k].commandId - 1)
  }

  function PendingIds(pending: seq<LeasedAction>): seq<int> {
    seq(|pending|, k requires 0 <= k < |pending| => pending[k].work.commandId - 1)
  }

  function CountStatus(rows: seq<RowValue>, status: Status): nat {
    if |rows| == 0 then 0
    else CountStatus(rows[..|rows| - 1], status) + if rows[|rows| - 1].record.status == status then 1 else 0
  }

  predicate StoreMatches(es: seq<string>, s: Store, w: P.World) {
    && CommandsMatch(es, s.rows, w.commands)
    && BooksMatch(es, s.snapshots, w.epochs, w.amounts)
    && w.history == Ids(s.history) && w.outbox == PendingIds(s.pending)
    && w.acked == s.acknowledged && w.fenced == s.fenced && w.serial == s.token
    && w.dead == CountStatus(s.rows, DeadLettered) && w.rejected == CountStatus(s.rows, Status.Rejected)
  }

  /** The destination's memory, of first actions only. */
  predicate EffectsMatch(sys: System, w: P.World) {
    && (forall k | k in sys.seen :: k.1 == 0)
    && (forall k | k in sys.seen :: k.0 - 1 in w.effects)
    && (forall x | x in w.effects :: (x + 1, 0) in sys.seen)
    && |w.effects| == sys.effects && w.attempts == sys.attempts
  }

  predicate Simulates(es: seq<string>, sys: System, w: P.World) {
    StoreMatches(es, sys.store, w) && EffectsMatch(sys, w)
  }

  predicate DistinctEntities(es: seq<string>) {
    forall a, b | 0 <= a < b < |es| :: es[a] != es[b]
  }

  // ---------------------------------------------------------------- one command changes

  lemma {:induction false} CountChanges(rows: seq<RowValue>, i: nat, row: RowValue, status: Status)
    requires i < |rows|
    ensures CountStatus(rows[i := row], status) ==
      CountStatus(rows, status) - (if rows[i].record.status == status then 1 else 0)
      + (if row.record.status == status then 1 else 0)
  {
    var last := |rows| - 1;
    if i == last {
      assert rows[i := row][..last] == rows[..last];
    } else {
      CountChanges(rows[..last], i, row, status);
      assert rows[i := row][..last] == rows[..last][i := row];
    }
  }

  lemma CommandChanges(es: seq<string>, s: Store, w: P.World, i: nat, row: RowValue, c: P.Cmd)
    requires StoreMatches(es, s, w) && i < |s.rows| && Matches(es, row, c)
    ensures
      var s1, w1 := s.(rows := s.rows[i := row]), P.Put(w, i, c);
      && CommandsMatch(es, s1.rows, w1.commands)
      && CountStatus(s1.rows, DeadLettered) == w.dead
           - (if s.rows[i].record.status == DeadLettered then 1 else 0)
           + (if row.record.status == DeadLettered then 1 else 0)
      && CountStatus(s1.rows, Status.Rejected) == w.rejected
           - (if s.rows[i].record.status == Status.Rejected then 1 else 0)
           + (if row.record.status == Status.Rejected then 1 else 0)
  {
    CountChanges(s.rows, i, row, DeadLettered);
    CountChanges(s.rows, i, row, Status.Rejected);
  }

  // ---------------------------------------------------------------- submit

  lemma {:induction false} EntityIndex(es: seq<string>, entity: string) returns (k: nat)
    requires entity in es
    ensures k < |es| && es[k] == entity
  {
    var i :| 0 <= i < |es| && es[i] == entity;
    k := i;
  }

  /** Nothing for a known entity and key, otherwise the submission of that very payload for that very entity. */
  predicate Submits(es: seq<string>, s: Store, w: P.World, entity: string, key: string, event: int, moves: seq<Move>) {
    if exists i | 0 <= i < |s.rows| :: HasKey(s.rows[i], entity, key) then moves == []
    else exists k | 0 <= k < |es| :: es[k] == entity && moves == [Do(P.Op(P.Submit, |w.commands|, k, event))]
  }

  lemma SubmitSimulates(es: seq<string>, s: Store, w: P.World, machine: string, entity: string, key: string, event: int)
    returns (moves: seq<Move>, w1: P.World)
    requires StoreMatches(es, s, w) && entity in es
    ensures Submits(es, s, w, entity, key, event, moves)
    ensures Reaches(w, moves, w1) && StoreMatches(es, SubmitSpec(s, machine, entity, key, event).0, w1)
    ensures w1.effects == w.effects && w1.attempts == w.attempts
  {
    if FindKey(s.rows, entity, key).Some? {
      moves, w1 := [], w;
    } else {
      var k := EntityIndex(es, entity);
      var op := P.Op(P.Submit, |w.commands|, k, event);
      w1 := P.ApplyOp(w, op).value;
      moves := [Do(op)];
      ReachesOne(w, Do(op), w1);
      var s1 := SubmitSpec(s, machine, entity, key, event).0;
      assert s1.rows[..|s.rows|] == s.rows;
      assert Matches(es, s1.rows[|s.rows|], w1.commands[|s.rows|]);
    }
  }

  // ---------------------------------------------------------------- claim

  lemma SameEntityIndex(es: seq<string>, a: nat, b: nat)
    requires DistinctEntities(es) && a < |es| && b < |es|
    ensures es[a] == es[b] <==> a == b
  {
  }

  lemma LeasableIsEligible(es: seq<string>, rows: seq<RowValue>, w: P.World, i: nat)
    requires DistinctEntities(es) && CommandsMatch(es, rows, w.commands) && i < |rows| && Leasable(rows, i)
    ensures P.Eligible(w, i)
  {
    assert Matches(es, rows[i], w.commands[i]);
    forall j | 0 <= j < i
      ensures w.commands[j].entity != w.commands[i].entity || P.Finalized(w.commands[j])
    {
      assert Matches(es, rows[j], w.commands[j]);
    }
  }

  lemma LeaseSimulates(es: seq<string>, s: Store, w: P.World, i: nat) returns (w1: P.World)
    requires DistinctEntities(es) && StoreMatches(es, s, w) && i < |s.rows| && Leasable(s.rows, i)
    ensures
      var op := P.Op(P.Claim, i, 0, 0);
      P.Guarded(w, op) && P.ApplyOp(w, op) == Some(w1) && StoreMatches(es, Lease(s, i), w1)
    ensures w1.effects == w.effects && w1.attempts == w.attempts
  {
    var c := w.commands[i].(status := P.Leased, token := w.serial + 1);
    w1 := P.Put(w, i, c).(serial := w.serial + 1);
    assert Matches(es, s.rows[i], w.commands[i]);
    CommandChanges(es, s, w, i, Lease(s, i).rows[i], c);
    LeasableIsEligible(es, s.rows, w, i);
  }

  lemma {:induction false} LeaseAllSimulates(es: seq<string>, s: Store, w: P.World, indices: seq<nat>)
    returns (moves: seq<Move>, w1: P.World)
    requires DistinctEntities(es) && StoreMatches(es, s, w) && AllLeasable(s.rows, indices)
    ensures Reaches(w, moves, w1) && StoreMatches(es, LeaseAll(s, indices).0, w1)
    ensures w1.effects == w.effects && w1.attempts == w.attempts
    decreases |indices|
  {
    if |indices| == 0 {
      moves, w1 := [], w;
    } else {
      var n := |indices| - 1;
      var some, mid := LeaseAllSimulates(es, s, w, indices[..n]);
      LeaseAllRows(s, indices[..n]);
      var s1 := LeaseAll(s, indices[..n]).0;
      StillLeasable(s.rows, s1.rows, indices);
      w1 := LeaseSimulates(es, s1, mid, indices[n]);
      moves := some + [Do(P.Op(P.Claim, indices[n], 0, 0))];
      ReachesMore(w, some, mid, Do(P.Op(P.Claim, indices[n], 0, 0)), w1);
    }
  }

  lemma ClaimSimulates(es: seq<string>, s: Store, w: P.World, machine: string, batch: int)
    returns (moves: seq<Move>, w1: P.World)
    requires DistinctEntities(es) && StoreMatches(es, s, w) && Identified(s.rows)
    ensures Reaches(w, moves, w1) && StoreMatches(es, ClaimSpec(s, machine, batch).0, w1)
    ensures w1.effects == w.effects && w1.attempts == w.attempts
  {
    ToLeaseIsLeasable(s.rows, machine, batch);
    moves, w1 := LeaseAllSimulates(es, s, w, ToLease(s.rows, machine, batch));
  }

  // ---------------------------------------------------------------- commit

  /** What a call does with a row it does not find leased to the caller's token. */
  lemma FenceSimulates(es: seq<string>, s: Store, w: P.World, i: nat, lease: int)
      returns (moves: seq<Move>, w1: P.World)
    requires StoreMatches(es, s, w) && i < |s.rows| && !Owns(s.rows[i], lease)
    requires !(s.rows[i].record.status == Succeeded && s.rows[i].token == lease)
    ensures Reaches(w, moves, w1) && StoreMatches(es, s.(fenced := s.fenced + 1), w1)
    ensures w1.effects == w.effects && w1.attempts == w.attempts
  {
    var op := P.Op(P.Commit, i, 0, lease);
    assert Matches(es, s.rows[i], w.commands[i]);
    w1 := w.(fenced := w.fenced + 1);
    moves := [Do(op)];
    ReachesOne(w, Do(op), w1);
  }

  lemma BooksCommit(es: seq<string>, s: Store, w: P.World, k: nat, event: int, epoch: nat)
    requires DistinctEntities(es) && BooksMatch(es, s.snapshots, w.epochs, w.amounts) && k < |es|
    requires epoch == SnapshotOf(s.snapshots, es[k]).epoch + 1
    ensures
      var to := Wrap32(SnapshotOf(s.snapshots, es[k]).state + event);
      BooksMatch(es, s.snapshots[es[k] := Snapshot(to, epoch)], w.epochs[k := w.epochs[k] + 1],
                 w.amounts[k := w.amounts[k] + event])
  {
    WrapAdd(w.amounts[k], event);
    var to := Wrap32(SnapshotOf(s.snapshots, es[k]).state + event);
    var snapshots1 := s.snapshots[es[k] := Snapshot(to, epoch)];
    forall j | 0 <= j < |es| && j != k
      ensures SnapshotOf(snapshots1, es[j]) == SnapshotOf(s.snapshots, es[j])
    {
      SameEntityIndex(es, j, k);
    }
  }

  lemma IdsAppend(history: seq<Transition>, t: Transition)
    ensures Ids(history + [t]) == Ids(history) + [t.commandId - 1]
  {
  }

  lemma PendingIdsAppend(pending: seq<LeasedAction>, added: seq<LeasedAction>)
    requires |added| == 1
    ensures PendingIds(pending + added) == PendingIds(pending) + [added[0].work.commandId - 1]
  {
  }

  /** The abstract commit of a command leased to the token. */
  function CommittedWorld(w: P.World, i: nat): P.World
    requires i < |w.commands| && 0 <= w.commands[i].entity < |w.epochs| && |w.amounts| == |w.epochs|
  {
    var c := w.commands[i];
    P.Put(w, i, c.(status := P.Done)).(
      history := w.history + [i], outbox := w.outbox + [i],
      epochs := w.epochs[c.entity := w.epochs[c.entity] + 1],
      amounts := w.amounts[c.entity := w.amounts[c.entity] + c.payload])
  }

  lemma AbstractCommit(w: P.World, i: nat, lease: int)
    requires i < |w.commands| && 0 <= w.commands[i].entity < |w.epochs| && |w.amounts| == |w.epochs|
    requires w.commands[i].status == P.Leased && w.commands[i].token == lease
    ensures Reaches(w, [Do(P.Op(P.Commit, i, 0, lease))], CommittedWorld(w, i))
  {
    ReachesOne(w, Do(P.Op(P.Commit, i, 0, lease)), CommittedWorld(w, i));
  }

  lemma CommittedRows(es: seq<string>, s: Store, w: P.World, i: nat, lease: int)
    requires StoreMatches(es, s, w) && i < |s.rows| && Owns(s.rows[i], lease)
    ensures
      var rows := s.rows[i := WithStatus(s.rows[i], Succeeded).(token := lease)];
      && CommandsMatch(es, rows, w.commands[i := w.commands[i].(status := P.Done)])
      && w.dead == CountStatus(rows, DeadLettered) && w.rejected == CountStatus(rows, Status.Rejected)
  {
    var row := WithStatus(s.rows[i], Succeeded).(token := lease);
    assert Matches(es, s.rows[i], w.commands[i]);
    CommandChanges(es, s, w, i, row, w.commands[i].(status := P.Done));
  }

  lemma CommittedBooks(es: seq<string>, s: Store, w: P.World, i: nat, draft: Draft)
    requires DistinctEntities(es) && StoreMatches(es, s, w) && i < |s.rows|
    requires draft.entity == s.rows[i].record.entity
    requires draft.toState == Wrap32(SnapshotOf(s.snapshots, draft.entity).state + s.rows[i].record.event)
    ensures 0 <= w.commands[i].entity < |w.epochs| == |w.amounts|
    ensures
      var w1, epoch := CommittedWorld(w, i), SnapshotOf(s.snapshots, draft.entity).epoch + 1;
      BooksMatch(es, s.snapshots[draft.entity := Snapshot(draft.toState, epoch)], w1.epochs, w1.amounts)
  {
    var c := w.commands[i];
    assert Matches(es, s.rows[i], c);
    BooksCommit(es, s, w, c.entity, c.payload, SnapshotOf(s.snapshots, draft.entity).epoch + 1);
  }

  lemma CommittedMatches(es: seq<string>, s: Store, w: P.World, i: nat, lease: int, draft: Draft)
    requires DistinctEntities(es) && StoreMatches(es, s, w) && i < |s.rows| && Owns(s.rows[i], lease)
    requires draft.entity == s.rows[i].record.entity && draft.actions == [EFFECT]
    requires draft.toState == Wrap32(SnapshotOf(s.snapshots, draft.entity).state + s.rows[i].record.event)
    ensures 0 <= w.commands[i].entity < |w.epochs| == |w.amounts|
    ensures w.commands[i].status == P.Leased && w.commands[i].token == lease
    ensures StoreMatches(es, Committed(s, i, i + 1, lease, draft), CommittedWorld(w, i))
  {
    var epoch := SnapshotOf(s.snapshots, draft.entity).epoch + 1;
    assert Matches(es, s.rows[i], w.commands[i]);
    CommittedRows(es, s, w, i, lease);
    CommittedBooks(es, s, w, i, draft);
    IdsAppend(s.history, Transition(draft, epoch, i + 1));
    PendingIdsAppend(s.pending, NewActions(draft, i + 1, epoch, 1));
  }

  /** The three things a worker's commit can do to the store. */
  predicate Written(s: Store, i: nat, lease: int, draft: Draft, s1: Store)
    requires i < |s.rows|
  {
    Owns(s.rows[i], lease) && s1 == Committed(s, i, i + 1, lease, draft).(faults := s1.faults)
  }

  predicate Fenced(s: Store, i: nat, lease: int, s1: Store)
    requires i < |s.rows|
  {
    && !Owns(s.rows[i], lease) && !(s.rows[i].record.status == Succeeded && s.rows[i].token == lease)
    && s1 == s.(fenced := s.fenced + 1)
  }

  lemma CommitOutcomes(s: Store, worker: Worker, i: nat)
    requires Numbered(s.rows) && WorkerFits(s, worker) && worker.read.Some? && i + 1 == worker.work.id
    ensures
      var s1 := CommitBy(s, worker).0;
      s1 == s || Fenced(s, i, worker.token, s1) || Written(s, i, worker.token, worker.read.value.1, s1)
  {
    RowOfId(s.rows, i);
  }

  /** The draft of a worker that owns its row adds the row's payload to the entity's state. */
  lemma DraftFits(s: Store, w: Worker, i: nat)
    requires WorkerFits(s, w) && w.read.Some? && i + 1 == w.work.id && Owns(s.rows[i], w.token)
    ensures
      var draft := w.read.value.1;
      && draft.entity == s.rows[i].record.entity && draft.actions == [EFFECT]
      && draft.toState == Wrap32(SnapshotOf(s.snapshots, draft.entity).state + s.rows[i].record.event)
  {
  }

  lemma FaultsUnseen(es: seq<string>, s: Store, w: P.World, faults: Faults)
    requires StoreMatches(es, s, w)
    ensures StoreMatches(es, s.(faults := faults), w)
  {
  }

  lemma WorkerOf(s: Store, workers: seq<Worker>, k: nat)
    requires Sound(s, workers) && k < |workers|
    ensures WorkerFits(s, workers[k])
  {
  }

  lemma WriteSimulates(es: seq<string>, s: Store, w: P.World, worker: Worker, i: nat, s1: Store)
    returns (moves: seq<Move>, w1: P.World)
    requires DistinctEntities(es) && StoreMatches(es, s, w) && worker.read.Some? && i < |s.rows|
    requires WorkerFits(s, worker) && i + 1 == worker.work.id && Written(s, i, worker.token, worker.read.value.1, s1)
    ensures Reaches(w, moves, w1) && StoreMatches(es, s1, w1)
    ensures w1.effects == w.effects && w1.attempts == w.attempts
  {
    DraftFits(s, worker, i);
    CommittedMatches(es, s, w, i, worker.token, worker.read.value.1);
    FaultsUnseen(es, Committed(s, i, i + 1, worker.token, worker.read.value.1), CommittedWorld(w, i), s1.faults);
    AbstractCommit(w, i, worker.token);
    moves, w1 := [Do(P.Op(P.Commit, i, 0, worker.token))], CommittedWorld(w, i);
  }

  lemma OutcomeSimulates(es: seq<string>, s: Store, w: P.World, worker: Worker, i: nat, s1: Store)
    returns (moves: seq<Move>, w1: P.World)
    requires DistinctEntities(es) && StoreMatches(es, s, w) && worker.read.Some? && i < |s.rows|
    requires WorkerFits(s, worker) && i + 1 == worker.work.id
    requires s1 == s || Fenced(s, i, worker.token, s1) || Written(s, i, worker.token, worker.read.value.1, s1)
    ensures Reaches(w, moves, w1) && StoreMatches(es, s1, w1)
    ensures w1.effects == w.effects && w1.attempts == w.attempts
  {
    if s1 == s {
      moves, w1 := [], w;
    } else if Fenced(s, i, worker.token, s1) {
      moves, w1 := FenceSimulates(es, s, w, i, worker.token);
    } else {
      moves, w1 := WriteSimulates(es, s, w, worker, i, s1);
    }
  }

  lemma CommitSimulates(es: seq<string>, s: Store, workers: seq<Worker>, w: P.World, k: nat)
    returns (moves: seq<Move>, w1: P.World)
    requires DistinctEntities(es) && StoreMatches(es, s, w) && Sound(s, workers) &&
        k < |workers| && workers[k].read.Some?
    ensures Reaches(w, moves, w1) && StoreMatches(es, CommitBy(s, workers[k]).0, w1)
    ensures w1.effects == w.effects && w1.attempts == w.attempts
  {
    WorkerOf(s, workers, k);
    var i := workers[k].work.id - 1;
    CommitOutcomes(s, workers[k], i);
    moves, w1 := OutcomeSimulates(es, s, w, workers[k], i, CommitBy(s, workers[k]).0);
  }

  // ---------------------------------------------------------------- reschedule, reject, dead-letter

  lemma OneChange(es: seq<string>, s: Store, w: P.World, i: nat, row: RowValue, c: P.Cmd, op: P.Op)
    returns (moves: seq<Move>, w1: P.World)
    requires StoreMatches(es, s, w) && i < |s.rows| && s.rows[i].record.status == Leased
    requires Matches(es, row, c) && P.Guarded(w, op) && op.kind != P.Ack
    requires P.ApplyOp(w, op) ==
      Some(P.Put(w, i, c).(dead := w.dead + (if row.record.status == DeadLettered then 1 else 0),
                           rejected := w.rejected + (if row.record.status == Status.Rejected then 1 else 0)))
    ensures Reaches(w, moves, w1) && StoreMatches(es, s.(rows := s.rows[i := row]), w1)
    ensures w1.effects == w.effects && w1.attempts == w.attempts
  {
    w1 := P.ApplyOp(w, op).value;
    moves := [Do(op)];
    ReachesOne(w, Do(op), w1);
    CommandChanges(es, s, w, i, row, c);
  }

  /** A failed attempt below the bound is a `Fail`; at the bound, where the store only counts, it is an `Expire`. */
  lemma RescheduleSimulates(es: seq<string>, s: Store, w: P.World, id: int, lease: int)
    returns (moves: seq<Move>, w1: P.World)
    requires StoreMatches(es, s, w)
    ensures Reaches(w, moves, w1) && StoreMatches(es, RescheduleSpec(s, id, lease).0, w1)
    ensures w1.effects == w.effects && w1.attempts == w.attempts
  {
    var found := RowOf(s.rows, id);
    if found.Some? && Owns(s.rows[found.value], lease) {
      moves, w1 := AttemptSimulates(es, s, w, found.value);
    } else {
      moves, w1 := [], w;
    }
  }

  lemma AttemptSimulates(es: seq<string>, s: Store, w: P.World, i: nat) returns (moves: seq<Move>, w1: P.World)
    requires StoreMatches(es, s, w) && i < |s.rows| && s.rows[i].record.status == Leased
    ensures
      Reaches(w, moves, w1) && StoreMatches(es, s.(rows := s.rows[i := Retried(s.rows[i])]), w1)
    ensures w1.effects == w.effects && w1.attempts == w.attempts
  {
    var c, row := w.commands[i], Retried(s.rows[i]);
    assert Matches(es, s.rows[i], c);
    if s.rows[i].record.attempts < 2 {
      moves, w1 := OneChange(es, s, w, i, row,
        c.(status := P.Ready, failures := c.failures + 1), P.Op(P.Fail, i, 0, 0));
    } else {
      moves, w1 := OneChange(es, s, w, i, row, c.(status := P.Ready), P.Op(P.Expire, i, 0, 0));
    }
  }

  lemma RejectSimulates(es: seq<string>, s: Store, w: P.World, id: int, lease: int)
    returns (moves: seq<Move>, w1: P.World)
    requires StoreMatches(es, s, w)
    ensures Reaches(w, moves, w1) && StoreMatches(es, FinishSpec(s, id, lease, Status.Rejected).0, w1)
    ensures w1.effects == w.effects && w1.attempts == w.attempts
  {
    var found := RowOf(s.rows, id);
    moves, w1 := [], w;
    if found.Some? && Owns(s.rows[found.value], lease) {
      var i := found.value;
      var c := w.commands[i];
      assert Matches(es, s.rows[i], c);
      moves, w1 := OneChange(es, s, w, i, WithStatus(s.rows[i], Status.Rejected), c.(status := P.Status.Rejected),
                             P.Op(P.Reject, i, 0, 0));
    }
  }

  /** The failures that are left before the abstract command dies. */
  lemma {:induction false} FailsUntilDead(w: P.World, i: nat) returns (moves: seq<Move>, w1: P.World)
    requires i < |w.commands| && w.commands[i].status != P.Done && 0 <= w.commands[i].failures <= 2
    ensures Reaches(w, moves, w1)
    ensures w1 == P.Put(w, i, w.commands[i].(status := P.Dead, failures := 3)).(dead := w.dead + 1)
    decreases 2 - w.commands[i].failures
  {
    var c, op := w.commands[i], P.Op(P.Fail, i, 0, 0);
    var mid := P.ApplyOp(w, op).value;
    ReachesOne(w, Do(op), mid);
    if c.failures == 2 {
      moves, w1 := [Do(op)], mid;
    } else {
      var rest, end := FailsUntilDead(mid, i);
      ReachesTrans(w, [Do(op)], mid, rest, end);
      moves, w1 := [Do(op)] + rest, end;
      assert mid.commands[i := mid.commands[i].(status := P.Dead, failures := 3)] ==
             w.commands[i := c.(status := P.Dead, failures := 3)];
    }
  }

  lemma DeadLetterSimulates(es: seq<string>, s: Store, w: P.World, id: int, lease: int)
    returns (moves: seq<Move>, w1: P.World)
    requires StoreMatches(es, s, w)
    ensures Reaches(w, moves, w1) && StoreMatches(es, FinishSpec(s, id, lease, DeadLettered).0, w1)
    ensures w1.effects == w.effects && w1.attempts == w.attempts
  {
    var found := RowOf(s.rows, id);
    moves, w1 := [], w;
    if found.Some? && Owns(s.rows[found.value], lease) {
      var i := found.value;
      assert Matches(es, s.rows[i], w.commands[i]);
      moves, w1 := FailsUntilDead(w, i);
      CommandChanges(es, s, w, i, WithStatus(s.rows[i], DeadLettered), w1.commands[i]);
    }
  }

  // ---------------------------------------------------------------- expire

  /** The rows with the first `n` expired. */
  function ExpiredBelow(rows: seq<RowValue>, n: nat): (r: seq<RowValue>)
    requires n <= |rows|
    ensures |r| == |rows|
    ensures forall i | 0 <= i < |rows| :: r[i] == if i < n then ExpiredRow(rows[i]) else rows[i]
  {
    seq(|rows|, i requires 0 <= i < |rows| => if i < n then ExpiredRow(rows[i]) else rows[i])
  }

  lemma ExpireOneMore(rows: seq<RowValue>, n: nat)
    requires n < |rows|
    ensures var before := ExpiredBelow(rows, n); ExpiredBelow(rows, n + 1) == before[n := ExpiredRow(before[n])]
  {
  }

  lemma {:induction false} ExpireBelowSimulates(es: seq<string>, s: Store, w: P.World, n: nat)
    returns (moves: seq<Move>, w1: P.World)
    requires StoreMatches(es, s, w) && n <= |s.rows|
    ensures Reaches(w, moves, w1) && StoreMatches(es, s.(rows := ExpiredBelow(s.rows, n)), w1)
    ensures w1.effects == w.effects && w1.attempts == w.attempts
  {
    if n == 0 {
      moves, w1 := [], w;
      assert ExpiredBelow(s.rows, 0) == s.rows;
    } else {
      var some, mid := ExpireBelowSimulates(es, s, w, n - 1);
      var s1 := s.(rows := ExpiredBelow(s.rows, n - 1));
      ExpireOneMore(s.rows, n - 1);
      var one, end := ExpireOneSimulates(es, s1, mid, n - 1);
      ReachesTrans(w, some, mid, one, end);
      moves, w1 := some + one, end;
    }
  }

  lemma ExpireOneSimulates(es: seq<string>, s: Store, w: P.World, i: nat) returns (moves: seq<Move>, w1: P.World)
    requires StoreMatches(es, s, w) && i < |s.rows|
    ensures Reaches(w, moves, w1) && StoreMatches(es, s.(rows := s.rows[i := ExpiredRow(s.rows[i])]), w1)
    ensures w1.effects == w.effects && w1.attempts == w.attempts
  {
    if s.rows[i].record.status == Leased {
      var op, c := P.Op(P.Expire, i, 0, 0), w.commands[i];
      assert Matches(es, s.rows[i], c);
      moves, w1 := OneChange(es, s, w, i, ExpiredRow(s.rows[i]), c.(status := P.Ready), op);
    } else {
      moves, w1 := [], w;
      assert s.rows[i := s.rows[i]] == s.rows;
    }
  }

  lemma ExpireSimulates(es: seq<string>, s: Store, w: P.World) returns (moves: seq<Move>, w1: P.World)
    requires StoreMatches(es, s, w)
    ensures Reaches(w, moves, w1) && StoreMatches(es, ExpireSpec(s), w1)
    ensures w1.effects == w.effects && w1.attempts == w.attempts
  {
    moves, w1 := ExpireBelowSimulates(es, s, w, |s.rows|);
    assert ExpiredBelow(s.rows, |s.rows|) == ExpiredRows(s.rows);
  }

  // ---------------------------------------------------------------- actions

  predicate FirstActions(pending: seq<LeasedAction>) {
    forall k | 0 <= k < |pending| :: pending[k].work.ordinal == 0
  }

  lemma {:induction false} PendingWithout(pending: seq<LeasedAction>, id: int)
    requires FirstActions(pending)
    ensures PendingIds(WithoutKey(pending, (id, 0))) == P.Without(PendingIds(pending), id - 1)
  {
    if |pending| > 0 {
      var first, rest := pending[0], pending[1..];
      var kept := WithoutKey(rest, (id, 0));
      PendingWithout(rest, id);
      assert PendingIds(pending)[0] == first.work.commandId - 1 && PendingIds(pending)[1..] == PendingIds(rest);
      if first.work.commandId == id {
        assert WithoutKey(pending, (id, 0)) == [] + kept == kept;
      } else {
        assert WithoutKey(pending, (id, 0)) == [first] + kept;
        PendingIdsCons(first, kept);
      }
    }
  }

  lemma PendingIdsCons(first: LeasedAction, rest: seq<LeasedAction>)
    ensures PendingIds([first] + rest) == [first.work.commandId - 1] + PendingIds(rest)
  {
  }

  lemma CompleteSimulates(es: seq<string>, s: Store, w: P.World, action: Action)
    returns (moves: seq<Move>, w1: P.World)
    requires StoreMatches(es, s, w) && FirstActions(s.pending) && action.ordinal == 0
    ensures Reaches(w, moves, w1) && StoreMatches(es, CompleteSpec(s, action).0, w1)
    ensures w1.effects == w.effects && w1.attempts == w.attempts
  {
    if s.faults.loseAck {
      moves, w1 := [], w;
    } else {
      PendingWithout(s.pending, action.commandId);
      var op := P.Op(P.Ack, action.commandId - 1, 0, 0);
      w1 := P.ApplyOp(w, op).value;
      moves := [Do(op)];
      ReachesOne(w, Do(op), w1);
    }
  }

  lemma ClaimActionsSimulates(es: seq<string>, s: Store, w: P.World, batch: int)
    returns (moves: seq<Move>, w1: P.World)
    requires StoreMatches(es, s, w)
    ensures Reaches(w, moves, w1) && StoreMatches(es, ClaimActionsSpec(s, batch).0, w1)
    ensures w1.effects == w.effects && w1.attempts == w.attempts
  {
    var skip := Skip(|Truncate(Available(s.pending, s.active), batch)|);
    w1 := Apply(w, skip).value;
    moves := [skip];
    ReachesOne(w, skip, w1);
  }

  lemma DeliverSimulates(es: seq<string>, sys: System, w: P.World, action: Action)
    returns (moves: seq<Move>, w1: P.World)
    requires Simulates(es, sys, w) && action.ordinal == 0
    ensures Reaches(w, moves, w1) && Simulates(es, Next(sys, Event.Deliver(action)), w1)
  {
    var op := P.Op(P.Deliver, action.commandId - 1, 0, 0);
    w1 := P.ApplyOp(w, op).value;
    moves := [Do(op)];
    ReachesOne(w, Do(op), w1);
    assert (action.commandId - 1) in w.effects <==> KeyOf(action) in sys.seen;
  }

  // ---------------------------------------------------------------- the refinement

  /** Calls the abstract protocol speaks about: entities among the given ones, the actions that exist, and Abandon of
      those no longer pending alone. */
  predicate Covered(es: seq<string>, s: Store, e: Event) {
    match e
    case Submit(_, entity, _, _) => entity in es
    case Deliver(action) => action.ordinal == 0
    case Complete(action) => action.ordinal == 0
    case Abandon(action) => !IsPending(s, KeyOf(action))
    case _ => true
  }

  lemma StoreStep(es: seq<string>, sys: System, w: P.World, e: Event) returns (moves: seq<Move>, w1: P.World)
    requires DistinctEntities(es) && Possible(sys, e) && Covered(es, sys.store, e) && !e.Deliver?
    requires Sound(sys.store, sys.workers) && FirstActions(sys.store.pending) && StoreMatches(es, sys.store, w)
    ensures Reaches(w, moves, w1) && StoreMatches(es, Next(sys, e).store, w1)
    ensures w1.effects == w.effects && w1.attempts == w.attempts
    ensures e.Submit? ==> Submits(es, sys.store, w, e.entity, e.key, e.event, moves)
  {
    var s, ws := sys.store, sys.workers;
    match e {
      case Submit(machine, entity, key, event) => moves, w1 := SubmitSimulates(es, s, w, machine, entity, key, event);
      case Claim(machine, batch) => moves, w1 := ClaimSimulates(es, s, w, machine, batch);
      case Commit(k) => moves, w1 := CommitSimulates(es, s, ws, w, k);
      case Reschedule(k) => moves, w1 := RescheduleSimulates(es, s, w, ws[k].work.id, ws[k].token);
      case Reject(k) => moves, w1 := RejectSimulates(es, s, w, ws[k].work.id, ws[k].token);
      case DeadLetter(k) => moves, w1 := DeadLetterSimulates(es, s, w, ws[k].work.id, ws[k].token);
      case Expire => moves, w1 := ExpireSimulates(es, s, w);
      case ClaimActions(batch) => moves, w1 := ClaimActionsSimulates(es, s, w, batch);
      case Complete(action) => moves, w1 := CompleteSimulates(es, s, w, action);
      case Abandon(action) =>
        AbandonsAbsent(s, action);
        moves, w1 := [], w;
      case _ => moves, w1 := [], w;
    }
  }

  /** Forward simulation: from a matching pair, every call on the store is matched by moves of the protocol that lead to
      a matching pair again; all of them but acknowledgments are within their enabling conditions. */
  lemma StepRefines(es: seq<string>, sys: System, w: P.World, e: Event) returns (moves: seq<Move>, w1: P.World)
    requires DistinctEntities(es) && Possible(sys, e) && Covered(es, sys.store, e)
    requires Inv(sys) && Simulates(es, sys, w)
    ensures Reaches(w, moves, w1) && Simulates(es, Next(sys, e), w1)
    ensures e.Submit? ==> Submits(es, sys.store, w, e.entity, e.key, e.event, moves)
  {
    if e.Deliver? {
      moves, w1 := DeliverSimulates(es, sys, w, e.action);
    } else {
      moves, w1 := StoreStep(es, sys, w, e);
      SameEffects(sys, e);
    }
  }

  lemma SameEffects(sys: System, e: Event)
    requires Possible(sys, e) && !e.Deliver?
    ensures
      var sys1 := Next(sys, e);
      sys1.seen == sys.seen && sys1.effects == sys.effects && sys1.attempts == sys.attempts
  {
  }

  lemma EmptySimulates(es: seq<string>)
    ensures Simulates(es, EMPTY, P.Initial(|es|))
  {
  }

  predicate AllCovered(es: seq<string>, sys: System, events: seq<Event>)
    requires PossibleRun(sys, events)
    decreases |events|
  {
    |events| == 0 ||
    (Covered(es, sys.store, events[0]) && AllCovered(es, Next(sys, events[0]), events[1..]))
  }

  /** Every run of the store is a run of the protocol. */
  lemma {:induction false} RunRefines(es: seq<string>, sys: System, w: P.World, events: seq<Event>)
    returns (moves: seq<Move>, w1: P.World)
    requires DistinctEntities(es) && PossibleRun(sys, events) && AllCovered(es, sys, events)
    requires Inv(sys) && Simulates(es, sys, w)
    ensures Reaches(w, moves, w1) && Simulates(es, Run(sys, events), w1)
    decreases |events|
  {
    if |events| == 0 {
      moves, w1 := [], w;
    } else {
      var first, mid := StepRefines(es, sys, w, events[0]);
      NextInv(sys, events[0]);
      var rest, end := RunRefines(es, Next(sys, events[0]), mid, events[1..]);
      ReachesTrans(w, first, mid, rest, end);
      moves, w1 := first + rest, end;
    }
  }

  // ---------------------------------------------------------------- what is observed

  function StatesOf(es: seq<string>, snapshots: map<string, Snapshot>): (r: seq<int>)
    ensures |r| == |es| && forall k | 0 <= k < |es| :: r[k] == SnapshotOf(snapshots, es[k]).state
  {
    seq(|es|, k requires 0 <= k < |es| => SnapshotOf(snapshots, es[k]).state)
  }

  function EpochsOf(es: seq<string>, snapshots: map<string, Snapshot>): (r: seq<int>)
    ensures |r| == |es| && forall k | 0 <= k < |es| :: r[k] == SnapshotOf(snapshots, es[k]).epoch
  {
    seq(|es|, k requires 0 <= k < |es| => SnapshotOf(snapshots, es[k]).epoch)
  }

  function WinnerTokens(rows: seq<RowValue>): seq<int> {
    if |rows| == 0 then []
    else
      WinnerTokens(rows[..|rows| - 1]) +
      if rows[|rows| - 1].record.status == Succeeded then [rows[|rows| - 1].token] else []
  }

  /** `Metrics`, with the handler's two counters. */
  function Metrics(es: seq<string>, sys: System): P.Observation {
    var s := sys.store;
    P.Observation(
      |s.rows|, EpochsOf(es, s.snapshots), StatesOf(es, s.snapshots), |s.history|,
        |s.pending|, s.acknowledged, s.fenced,
      CountStatus(s.rows, DeadLettered), CountStatus(s.rows, Status.Rejected), WinnerTokens(s.rows), sys.attempts,
      sys.effects)
  }

  function Wrapped(amounts: seq<int>): (r: seq<int>)
    ensures |r| == |amounts| && forall k | 0 <= k < |r| :: r[k] == Wrap32(amounts[k])
  {
    seq(|amounts|, k requires 0 <= k < |amounts| => Wrap32(amounts[k]))
  }

  lemma {:induction false} WinnersMatch(es: seq<string>, rows: seq<RowValue>, commands: seq<P.Cmd>)
    requires CommandsMatch(es, rows, commands)
    ensures WinnerTokens(rows) == P.Winners(commands)
  {
    if |rows| > 0 {
      var last := |rows| - 1;
      forall i | 0 <= i < last
        ensures Matches(es, rows[..last][i], commands[..last][i])
      {
        assert Matches(es, rows[i], commands[i]);
      }
      WinnersMatch(es, rows[..last], commands[..last]);
      assert Matches(es, rows[last], commands[last]);
    }
  }

  /** Matching states are observed alike, up to the 32-bit wrapping of the amounts. */
  lemma ObservedAlike(es: seq<string>, sys: System, w: P.World)
    requires Simulates(es, sys, w)
    ensures Metrics(es, sys) == P.Observe(w).(amounts := Wrapped(w.amounts))
  {
    WinnersMatch(es, sys.store.rows, w.commands);
    assert EpochsOf(es, sys.store.snapshots) == w.epochs;
    assert StatesOf(es, sys.store.snapshots) == Wrapped(w.amounts);
  }

  /** What the store's users observe after any run is what some run of the protocol observes. */
  lemma StoreRefinesProtocol(es: seq<string>, events: seq<Event>) returns (moves: seq<Move>, w: P.World)
    requires DistinctEntities(es) && PossibleRun(EMPTY, events) && AllCovered(es, EMPTY, events)
    ensures Reaches(P.Initial(|es|), moves, w)
    ensures Metrics(es, Run(EMPTY, events)) == P.Observe(w).(amounts := Wrapped(w.amounts))
  {
    EmptyInv();
    EmptySimulates(es);
    moves, w := RunRefines(es, EMPTY, P.Initial(|es|), events);
    ObservedAlike(es, Run(EMPTY, events), w);
  }

  // ---------------------------------------------------------------- safe, for the store

  lemma {:induction false} MovesKeepBase(w: P.World, moves: seq<Move>, w1: P.World)
    requires P.Base(w) && Reaches(w, moves, w1)
    ensures P.Base(w1)
  {
    if |moves| > 0 {
      var n := |moves| - 1;
      var mid := RunMoves(w, moves[..n]).value;
      MovesKeepBase(w, moves[..n], mid);
      if moves[n].Do? {
        P.KeepsBase(mid, moves[n].op);
      }
    }
  }

  /** A matching protocol state is reached by moves that are all enabled but for acknowledgments, and it satisfies
      `safe` exactly when every completion acknowledged in the run was of an action still pending. */
  lemma SafeUnlessAcknowledgedTwice(es: seq<string>, events: seq<Event>) returns (moves: seq<Move>, w: P.World)
    requires DistinctEntities(es) && PossibleRun(EMPTY, events) && AllCovered(es, EMPTY, events)
    ensures Reaches(P.Initial(|es|), moves, w) && Simulates(es, Run(EMPTY, events), w)
    ensures P.Safe(w) <==> CompletesPending(EMPTY, events)
  {
    EmptyInv();
    EmptySimulates(es);
    moves, w := RunRefines(es, EMPTY, P.Initial(|es|), events);
    P.InitialCore(|es|);
    MovesKeepBase(P.Initial(|es|), moves, w);
    SafeWhenBalanced(es, Run(EMPTY, events), w);
    CoveredAbandonsNothing(es, EMPTY, events);
    OutboxOfRun(events);
  }

  lemma SafeWhenBalanced(es: seq<string>, sys: System, w: P.World)
    requires P.Base(w) && Simulates(es, sys, w)
    ensures P.Safe(w) <==> |sys.store.pending| + sys.store.acknowledged == |sys.store.history|
  {
  }

  lemma {:induction false} CoveredAbandonsNothing(es: seq<string>, sys: System, events: seq<Event>)
    requires PossibleRun(sys, events) && AllCovered(es, sys, events)
    ensures AbandonsNothing(sys, events)
    decreases |events|
  {
    if |events| > 0 {
      CoveredAbandonsNothing(es, Next(sys, events[0]), events[1..]);
    }
  }

  // ---------------------------------------------------------------- abandoning

  lemma AbandonsAbsent(s: Store, action: Action)
    requires !IsPending(s, KeyOf(action))
    ensures AbandonSpec(s, action) == s
  {
    WithoutKeyIndex(s.pending, KeyOf(action));
  }

  function Balance(w: P.World): int {
    |w.outbox| + w.acked - |w.history|
  }

  /** No move loses a message that is not counted. */
  lemma MoveKeepsBalance(w: P.World, m: Move)
    requires P.Base(w) && Allowed(w, m) && Apply(w, m).Some?
    ensures Balance(Apply(w, m).value) >= Balance(w)
  {
    if m.Do? {
      P.WithoutSpec(w.outbox, m.op.id);
    }
  }

  lemma {:induction false} BalanceNeverFalls(w: P.World, moves: seq<Move>, w1: P.World)
    requires P.Base(w) && Reaches(w, moves, w1)
    ensures Balance(w1) >= Balance(w)
  {
    if |moves| > 0 {
      var n := |moves| - 1;
      var mid := RunMoves(w, moves[..n]).value;
      BalanceNeverFalls(w, moves[..n], mid);
      MovesKeepBase(w, moves[..n], mid);
      MoveKeepsBalance(mid, moves[n]);
    }
  }

  lemma AbandonLowers(es: seq<string>, s: Store, w: P.World, action: Action)
    requires P.Base(w) && StoreMatches(es, s, w) && IsPending(s, KeyOf(action))
    ensures |AbandonSpec(s, action).pending| < |s.pending|
  {
    forall a, b | 0 <= a < b < |s.pending|
      ensures KeyOf(s.pending[a].work) != KeyOf(s.pending[b].work)
    {
      assert w.outbox[a] != w.outbox[b];
    }
    WithoutKeyIndex(s.pending, KeyOf(action));
  }

  /** From matching states, abandoning an action is matched by moves of the protocol exactly when it is no longer
      pending: the protocol never drops a message without counting it. */
  lemma AbandonMatchedExactly(es: seq<string>, s: Store, w: P.World, action: Action)
    requires P.Base(w) && StoreMatches(es, s, w)
    ensures
      (exists moves, w1 :: Reaches(w, moves, w1) && StoreMatches(es, AbandonSpec(s, action), w1)) <==>
      !IsPending(s, KeyOf(action))
  {
    var s1 := AbandonSpec(s, action);
    if IsPending(s, KeyOf(action)) {
      AbandonLowers(es, s, w, action);
      forall moves, w1 | Reaches(w, moves, w1)
        ensures !StoreMatches(es, s1, w1)
      {
        BalanceNeverFalls(w, moves, w1);
      }
    } else {
      AbandonsAbsent(s, action);
      assert Reaches(w, [], w) && StoreMatches(es, s1, w);
    }
  }
}
