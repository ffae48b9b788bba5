/** The store together with the workers and the dispatcher that use it: every interleaving of their calls. */
module StoreSystem {
  import opened Text
  import opened StoreSpec

  /** A worker holds what its claim handed out and, once it has read the snapshot, the epoch it expects and its
      draft. */
  datatype Worker = Worker(work: Record, token: int, read: Option<(nat, Draft)>)

  /** The store, its workers, the action handler's memory, and two accounting marks: the actions dropped by `Abandon`
      and the acknowledgments of actions no longer pending. */
  datatype System = System(
    store: Store, workers: seq<Worker>, seen: set<Key>, attempts: nat, effects: nat, abandoned: nat, surplus: nat)

  const EMPTY: System :=
    System(Store([], [], map[], [], {}, 0, 0, 0, Faults(false, false, false)), [], {}, 0, 0, 0, 0)

  datatype Event =
    | Submit(machine: string, entity: string, key: string, event: int)
    | Claim(machine: string, batch: int)
    | Read(worker: nat)
    | Commit(worker: nat)
    | Reschedule(worker: nat)
    | Reject(worker: nat)
    | DeadLetter(worker: nat)
    | Expire
    | SetFaults(faults: Faults)
    | ClaimActions(batch: int)
    | Deliver(action: Action)
    | Complete(action: Action)
    | RescheduleAction(action: Action)
    | Abandon(action: Action)

  /** 32-bit wrap-around of the state. */
  function Wrap32(x: int): (r: int)
    ensures -0x8000_0000 <= r < 0x8000_0000
    ensures exists k :: r == x + k * 0x1_0000_0000
  {
    var r := (x + 0x8000_0000) % 0x1_0000_0000 - 0x8000_0000;
    assert r == x + (-((x + 0x8000_0000) / 0x1_0000_0000)) * 0x1_0000_0000;
    r
  }

  lemma WrapUnique(a: int, b: int, k: int)
    requires -0x8000_0000 <= a < 0x8000_0000 && -0x8000_0000 <= b < 0x8000_0000 && a == b + k * 0x1_0000_0000
    ensures a == b
  {
  }

  /** Wrapping at every addition or once at the end is the same. */
  lemma WrapAdd(x: int, y: int)
    ensures Wrap32(Wrap32(x) + y) == Wrap32(x + y)
  {
    var k :| Wrap32(x) == x + k * 0x1_0000_0000;
    var m :| Wrap32(Wrap32(x) + y) == Wrap32(x) + y + m * 0x1_0000_0000;
    var n :| Wrap32(x + y) == x + y + n * 0x1_0000_0000;
    WrapUnique(Wrap32(Wrap32(x) + y), Wrap32(x + y), k + m - n);
  }

  const EFFECT: string := "effect"

  /** The chart's reducer: a negative event is refused. */
  function Reduce(snapshot: Snapshot, work: Record): Option<Draft> {
    if work.event < 0 then None
    else Some(Draft(work.machine, work.entity, snapshot.state, Wrap32(snapshot.state + work.event), [EFFECT]))
  }

  function NewWorkers(leased: seq<LeasedCommand>): (r: seq<Worker>)
    ensures |r| == |leased|
    ensures forall k | 0 <= k < |r| :: r[k] == Worker(leased[k].work, leased[k].token, None)
  {
    seq(|leased|, k requires 0 <= k < |leased| => Worker(leased[k].work, leased[k].token, None))
  }

  function ReadBy(s: Store, w: Worker): Worker {
    var snapshot := SnapshotOf(s.snapshots, w.work.entity);
    match Reduce(snapshot, w.work)
    case None => w
    case Some(draft) => w.(read := Some((snapshot.epoch, draft)))
  }

  predicate Possible(sys: System, e: Event) {
    match e
    case Read(w) => w < |sys.workers|
    case Commit(w) => w < |sys.workers| && sys.workers[w].read.Some?
    case Reschedule(w) => w < |sys.workers|
    case Reject(w) => w < |sys.workers|
    case DeadLetter(w) => w < |sys.workers|
    case _ => true
  }

  function CommitBy(s: Store, w: Worker): (Store, Answer<FinalizeOutcome>)
    requires w.read.Some?
  {
    CommitSpec(s, w.work.id, w.token, w.read.value.0, w.read.value.1)
  }

  predicate IsPending(s: Store, key: Key) {
    exists a | a in s.pending :: KeyOf(a.work) == key
  }

  function Next(sys: System, e: Event): System
    requires Possible(sys, e)
  {
    var s := sys.store;
    match e
    case Submit(machine, entity, key, event) => sys.(store := SubmitSpec(s, machine, entity, key, event).0)
    case Claim(machine, batch) =>
      var (s1, leased) := ClaimSpec(s, machine, batch);
      sys.(store := s1, workers := sys.workers + NewWorkers(leased))
    case Read(w) => sys.(workers := sys.workers[w := ReadBy(s, sys.workers[w])])
    case Commit(w) => sys.(store := CommitBy(s, sys.workers[w]).0)
    case Reschedule(w) => sys.(store := RescheduleSpec(s, sys.workers[w].work.id, sys.workers[w].token).0)
    case Reject(w) => sys.(store := FinishSpec(s, sys.workers[w].work.id, sys.workers[w].token, Status.Rejected).0)
    case DeadLetter(w) => sys.(store := FinishSpec(s, sys.workers[w].work.id, sys.workers[w].token, DeadLettered).0)
    case Expire => sys.(store := ExpireSpec(s))
    case SetFaults(faults) => sys.(store := s.(faults := faults))
    case ClaimActions(batch) => sys.(store := ClaimActionsSpec(s, batch).0)
    case Deliver(action) =>
      var handled := Handled(sys.seen, sys.attempts, sys.effects, KeyOf(action));
      sys.(seen := handled.0, attempts := handled.1, effects := handled.2)
    case Complete(action) =>
      sys.(store := CompleteSpec(s, action).0,
           surplus := sys.surplus + if s.faults.loseAck || IsPending(s, KeyOf(action)) then 0 else 1)
    case RescheduleAction(action) => sys.(store := RescheduleActionSpec(s, action))
    case Abandon(action) =>
      sys.(store := AbandonSpec(s, action),
           abandoned := sys.abandoned + if IsPending(s, KeyOf(action)) then 1 else 0)
  }

  predicate PossibleRun(sys: System, events: seq<Event>)
    decreases |events|
  {
    |events| == 0 || (Possible(sys, events[0]) && PossibleRun(Next(sys, events[0]), events[1..]))
  }

  function Run(sys: System, events: seq<Event>): System
    requires PossibleRun(sys, events)
    decreases |events|
  {
    if |events| == 0 then sys else Run(Next(sys, events[0]), events[1..])
  }

  // ---------------------------------------------------------------- rows

  /** Nothing but status, attempts, token and delivery count differs. */
  predicate SameCommand(a: Record, b: Record) {
    a.id == b.id && a.machine == b.machine && a.entity == b.entity && a.sequence == b.sequence && a.key == b.key &&
    a.event == b.event
  }

  predicate SameCommands(rows: seq<RowValue>, rows1: seq<RowValue>) {
    |rows| == |rows1| && forall i | 0 <= i < |rows| :: SameCommand(rows[i].record, rows1[i].record)
  }

  predicate Numbered(rows: seq<RowValue>) {
    forall i | 0 <= i < |rows| :: rows[i].record.id == i + 1
  }

  /** The row's sequence counts the rows of its entity. */
  predicate Sequenced(rows: seq<RowValue>, i: nat)
    requires i < |rows|
  {
    rows[i].record.sequence == 1 + CountOf(rows[..i], rows[i].record.entity)
  }

  /** Ids count the rows, sequences count the rows of the entity, and no entity has a key twice. */
  predicate Identified(rows: seq<RowValue>) {
    && Numbered(rows)
    && (forall i | 0 <= i < |rows| :: Sequenced(rows, i))
    && (forall i, j | 0 <= i < j < |rows| && rows[i].record.entity == rows[j].record.entity ::
          rows[i].record.key != rows[j].record.key)
  }

  /** At most the first unfinished command of an entity has left the Ready state. */
  predicate InOrder(rows: seq<RowValue>) {
    forall i, j |
      0 <= i < j < |rows| && rows[i].record.entity == rows[j].record.entity && rows[j].record.status != Ready ::
      Final(rows[i].record.status)
  }

  predicate TokensBelow(rows: seq<RowValue>, token: int) {
    && (forall i | 0 <= i < |rows| :: 0 <= rows[i].token <= token)
    && (forall i | 0 <= i < |rows| && rows[i].record.status == Leased :: rows[i].token > 0)
    && (forall i, j | 0 <= i < j < |rows| && rows[i].token == rows[j].token :: rows[i].token == 0)
  }

  lemma {:induction false} CountSame(rows: seq<RowValue>, rows1: seq<RowValue>, entity: string)
    requires SameCommands(rows, rows1)
    ensures CountOf(rows, entity) == CountOf(rows1, entity)
  {
    if |rows| > 0 {
      var last := |rows| - 1;
      assert SameCommand(rows[last].record, rows1[last].record);
      forall i | 0 <= i < last
        ensures SameCommand(rows[..last][i].record, rows1[..last][i].record)
      {
        assert SameCommand(rows[i].record, rows1[i].record);
      }
      CountSame(rows[..last], rows1[..last], entity);
    }
  }

  lemma IdentifiedKept(rows: seq<RowValue>, rows1: seq<RowValue>)
    requires Identified(rows) && SameCommands(rows, rows1)
    ensures Identified(rows1)
  {
    forall i | 0 <= i < |rows1|
      ensures Sequenced(rows1, i)
      ensures rows1[i].record.id == i + 1
    {
      assert SameCommand(rows[i].record, rows1[i].record);
      assert Sequenced(rows, i);
      forall k | 0 <= k < i
        ensures SameCommand(rows[..i][k].record, rows1[..i][k].record)
      {
        assert SameCommand(rows[k].record, rows1[k].record);
      }
      CountSame(rows[..i], rows1[..i], rows[i].record.entity);
    }
    forall i, j | 0 <= i < j < |rows1| && rows1[i].record.entity == rows1[j].record.entity
      ensures rows1[i].record.key != rows1[j].record.key
    {
      assert SameCommand(rows[i].record, rows1[i].record) && SameCommand(rows[j].record, rows1[j].record);
    }
  }

  lemma {:induction false} CountGrows(rows: seq<RowValue>, i: nat, j: nat, entity: string)
    requires i <= j <= |rows|
    ensures CountOf(rows[..i], entity) <= CountOf(rows[..j], entity)
    decreases j
  {
    if i < j {
      assert rows[..j][..j - 1] == rows[..j - 1];
      CountGrows(rows, i, j - 1, entity);
    }
  }

  /** Within an entity, sequence order is submission order. */
  lemma SequenceIsOrder(rows: seq<RowValue>, i: nat, j: nat)
    requires Identified(rows) && i < |rows| && j < |rows| && rows[i].record.entity == rows[j].record.entity
    ensures rows[i].record.sequence < rows[j].record.sequence <==> i < j
  {
    var entity := rows[i].record.entity;
    assert Sequenced(rows, i) && Sequenced(rows, j);
    if i < j {
      assert rows[..i + 1][..i] == rows[..i];
      CountGrows(rows, i + 1, j, entity);
    } else if j < i {
      assert rows[..j + 1][..j] == rows[..j];
      CountGrows(rows, j + 1, i, entity);
    }
  }

  /** With ids counting the rows, the row of an id is at the position before it. */
  lemma {:induction false} RowOfId(rows: seq<RowValue>, i: nat)
    requires Numbered(rows) && i < |rows|
    ensures RowOf(rows, i + 1) == Some(i)
  {
    var found := RowOf(rows, i + 1);
    assert rows[i].record.id == i + 1;
  }

  /** A Ready row all of whose predecessors are final. */
  predicate Leasable(rows: seq<RowValue>, i: nat)
    requires i < |rows|
  {
    rows[i].record.status == Ready &&
    forall j | 0 <= j < i && rows[j].record.entity == rows[i].record.entity :: Final(rows[j].record.status)
  }

  lemma EligibleIsLeasable(rows: seq<RowValue>, machine: string, i: nat)
    requires Identified(rows) && i < |rows|
    ensures Eligible(rows, machine, i) <==> rows[i].record.machine == machine && Leasable(rows, i)
  {
    forall j | 0 <= j < |rows| && rows[j].record.entity == rows[i].record.entity
      ensures rows[j].record.sequence < rows[i].record.sequence <==> j < i
    {
      SequenceIsOrder(rows, j, i);
    }
  }

  // ---------------------------------------------------------------- history and snapshots

  function HistoryOf(history: seq<Transition>, entity: string): (r: seq<Transition>) {
    if |history| == 0 then []
    else
      var last := history[|history| - 1];
      HistoryOf(history[..|history| - 1], entity) + if last.draft.entity == entity then [last] else []
  }

  /** Where the transition before the `k`-th ended. */
  function StateBefore(h: seq<Transition>, k: nat): int
    requires k <= |h|
  {
    if k == 0 then 0 else h[k - 1].draft.toState
  }

  predicate StartsThere(h: seq<Transition>, k: nat)
    requires k < |h|
  {
    h[k].draft.fromState == StateBefore(h, k)
  }

  /** The k-th transition has epoch k and starts where the one before it ended; the snapshot is the last one's. */
  predicate Chain(h: seq<Transition>, snapshot: Snapshot) {
    && (forall k | 0 <= k < |h| :: h[k].epoch == k + 1)
    && (forall k | 0 <= k < |h| :: StartsThere(h, k))
    && snapshot.epoch == |h|
    && snapshot.state == StateBefore(h, |h|)
  }

  function SumSucceeded(rows: seq<RowValue>, entity: string): int {
    if |rows| == 0 then 0
    else
      var last := rows[|rows| - 1];
      SumSucceeded(rows[..|rows| - 1], entity) +
      if last.record.entity == entity && last.record.status == Succeeded then last.record.event else 0
  }

  function CountSucceeded(rows: seq<RowValue>, entity: string): nat {
    if |rows| == 0 then 0
    else
      var last := rows[|rows| - 1];
      CountSucceeded(rows[..|rows| - 1], entity) +
      if last.record.entity == entity && last.record.status == Succeeded then 1 else 0
  }

  /** The entity's history is a chain ending in its snapshot; its state is the sum of its Succeeded payloads and its
      epoch their number. */
  predicate EntityBooks(s: Store, entity: string) {
    var snapshot := SnapshotOf(s.snapshots, entity);
    && Chain(HistoryOf(s.history, entity), snapshot)
    && snapshot.state == Wrap32(SumSucceeded(s.rows, entity))
    && snapshot.epoch == CountSucceeded(s.rows, entity)
  }

  /** A transition is that of a Succeeded command, adds its payload and has the one action. */
  predicate Linked(rows: seq<RowValue>, t: Transition) {
    && 1 <= t.commandId <= |rows|
    && (var record := rows[t.commandId - 1].record;
        && record.status == Succeeded && record.entity == t.draft.entity && record.machine == t.draft.machine
        && t.draft.toState == Wrap32(t.draft.fromState + record.event) && t.draft.actions == [EFFECT])
  }

  predicate InHistory(history: seq<Transition>, id: int) {
    exists p | 0 <= p < |history| :: history[p].commandId == id
  }

  predicate HasSucceeded(rows: seq<RowValue>, id: int) {
    1 <= id <= |rows| && rows[id - 1].record.status == Succeeded
  }

  /** Commands enter the history when they succeed, once, and in order within an entity. */
  predicate Recorded(rows: seq<RowValue>, history: seq<Transition>) {
    && (forall p | 0 <= p < |history| :: Linked(rows, history[p]))
    && (forall p, q | 0 <= p < q < |history| :: history[p].commandId != history[q].commandId)
    && (forall p, q | 0 <= p < q < |history| && history[p].draft.entity == history[q].draft.entity ::
          history[p].commandId < history[q].commandId)
    && (forall id | 1 <= id <= |rows| && HasSucceeded(rows, id) :: InHistory(history, id))
  }

  ghost predicate Books(s: Store) {
    Recorded(s.rows, s.history) && forall entity :: EntityBooks(s, entity)
  }

  // ---------------------------------------------------------------- workers

  predicate WorkerFits(s: Store, w: Worker) {
    && 1 <= w.work.id <= |s.rows|
    && SameCommand(w.work, s.rows[w.work.id - 1].record)
    && 0 < w.token <= s.token
    && (w.read.Some? ==> w.work.event >= 0)
    && (w.read.Some? && Owns(s.rows[w.work.id - 1], w.token) ==>
          var snapshot := SnapshotOf(s.snapshots, w.work.entity);
          w.read.value.0 == snapshot.epoch && Reduce(snapshot, w.work) == Some(w.read.value.1))
    && (w.read.Some? ==>
          w.read.value.1.entity == w.work.entity && w.read.value.1.machine == w.work.machine)
  }

  predicate WorkersFit(s: Store, workers: seq<Worker>) {
    forall k | 0 <= k < |workers| :: WorkerFits(s, workers[k])
  }

  // ---------------------------------------------------------------- outbox

  predicate KeysDistinct(pending: seq<LeasedAction>) {
    forall a, b | 0 <= a < b < |pending| :: KeyOf(pending[a].work) != KeyOf(pending[b].work)
  }

  /** Pending actions are the first actions of committed commands, each at most once; and none is lost unaccounted
      for. */
  predicate Outbox(sys: System) {
    var s := sys.store;
    && KeysDistinct(s.pending)
    && (forall a | 0 <= a < |s.pending| ::
          s.pending[a].work.ordinal == 0 && InHistory(s.history, s.pending[a].work.commandId))
    && |s.pending| + s.acknowledged + sys.abandoned == |s.history| + sys.surplus
  }

  predicate Effects(sys: System) {
    sys.effects == |sys.seen| && sys.effects <= sys.attempts
  }

  ghost predicate Inv(sys: System) {
    var s := sys.store;
    && Identified(s.rows) && InOrder(s.rows) && TokensBelow(s.rows, s.token) && 0 <= s.token
    && Books(s) && WorkersFit(s, sys.workers) && Outbox(sys) && Effects(sys)
  }
}
