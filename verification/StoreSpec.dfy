/** The contract store as a value, and each of its operations as a function from state to state and answer. */
module StoreSpec {
  import opened Text

  datatype Status = Ready | Leased | Succeeded | Rejected | DeadLettered

  datatype Record = Record(
    id: int, machine: string, entity: string, sequence: int, key: string, event: int, status: Status, attempts: nat)

  datatype RowValue = RowValue(record: Record, token: int, deliveries: nat)

  datatype Snapshot = Snapshot(state: int, epoch: nat)

  datatype Draft = Draft(machine: string, entity: string, fromState: int, toState: int, actions: seq<string>)

  datatype Transition = Transition(draft: Draft, epoch: nat, commandId: int)

  datatype Action = Action(machine: string, entity: string, commandId: int, epoch: nat, ordinal: nat, name: string)

  datatype LeasedAction = LeasedAction(work: Action, token: int, deliveries: nat)

  datatype LeasedCommand = LeasedCommand(work: Record, token: int, deliveries: nat)

  /** A command and the position of one of its actions. */
  type Key = (int, int)

  /** The settable switches that inject faults. */
  datatype Faults = Faults(loseCommitResponse: bool, loseAck: bool, failCommit: bool)

  datatype Store = Store(
    rows: seq<RowValue>, history: seq<Transition>, snapshots: map<string, Snapshot>, pending: seq<LeasedAction>,
    active: set<Key>, token: int, fenced: nat, acknowledged: nat, faults: Faults)

  datatype SubmitOutcome = AlreadySubmitted(id: int) | Accepted(id: int)

  datatype LeaseOutcome = Updated | Lost

  datatype FinalizeOutcome =
    AlreadyFinalized(epoch: nat) | LeaseLost | Conflict(expected: nat, actual: nat) | Finalized(epoch: nat)

  /** What a call comes back with: a result, an injected failure, or the exception for a command that does not exist. */
  datatype Answer<+T> = Ok(value: T) | Unavailable | Missing

  // ---------------------------------------------------------------- reading

  predicate Final(status: Status) {
    status == Succeeded || status == Rejected || status == DeadLettered
  }

  /** The position of the first row with the id. */
  function RowOf(rows: seq<RowValue>, id: int): (r: Option<nat>)
    ensures r.Some? ==> r.value < |rows| && rows[r.value].record.id == id
    ensures r.None? <==> forall i | 0 <= i < |rows| :: rows[i].record.id != id
  {
    if |rows| == 0 then None
    else
      var before := RowOf(rows[..|rows| - 1], id);
      if before.Some? then before
      else if rows[|rows| - 1].record.id == id then Some(|rows| - 1)
      else None
  }

  predicate HasKey(row: RowValue, entity: string, key: string) {
    row.record.entity == entity && row.record.key == key
  }

  /** The position of the first row with the entity and idempotency key. */
  function FindKey(rows: seq<RowValue>, entity: string, key: string): (r: Option<nat>)
    ensures r.Some? ==> r.value < |rows| && HasKey(rows[r.value], entity, key)
    ensures r.None? <==> forall i | 0 <= i < |rows| :: !HasKey(rows[i], entity, key)
  {
    if |rows| == 0 then None
    else
      var before := FindKey(rows[..|rows| - 1], entity, key);
      if before.Some? then before
      else if HasKey(rows[|rows| - 1], entity, key) then Some(|rows| - 1)
      else None
  }

  function CountOf(rows: seq<RowValue>, entity: string): nat {
    if |rows| == 0 then 0
    else CountOf(rows[..|rows| - 1], entity) + if rows[|rows| - 1].record.entity == entity then 1 else 0
  }

  function SnapshotOf(snapshots: map<string, Snapshot>, entity: string): Snapshot {
    if entity in snapshots then snapshots[entity] else Snapshot(0, 0)
  }

  predicate Owns(row: RowValue, lease: int) {
    row.token == lease && row.record.status == Leased
  }

  /** No earlier command of the row's entity is unfinished. */
  predicate Unblocked(rows: seq<RowValue>, i: nat)
    requires i < |rows|
  {
    !exists j | 0 <= j < |rows| ::
      rows[j].record.entity == rows[i].record.entity && rows[j].record.sequence < rows[i].record.sequence &&
      !Final(rows[j].record.status)
  }

  predicate Eligible(rows: seq<RowValue>, machine: string, i: nat)
    requires i < |rows|
  {
    rows[i].record.machine == machine && rows[i].record.status == Ready && Unblocked(rows, i)
  }

  /** The positions of the eligible rows among the first `n`, in order. */
  function EligibleBelow(rows: seq<RowValue>, machine: string, n: nat): (r: seq<nat>)
    requires n <= |rows|
    ensures forall i :: i in r <==> 0 <= i < n && Eligible(rows, machine, i)
    ensures forall a | 0 <= a < |r| :: r[a] < n
    ensures forall a, b | 0 <= a < b < |r| :: r[a] < r[b]
  {
    if n == 0 then []
    else
      var before := EligibleBelow(rows, machine, n - 1);
      if Eligible(rows, machine, n - 1) then before + [n - 1] else before
  }

  /** `Seq.truncate` */
  function Truncate<T>(xs: seq<T>, count: int): (r: seq<T>)
    ensures r <= xs
    ensures count >= 1 && |xs| >= 1 ==> |r| >= 1
  {
    if count <= 0 then [] else if |xs| <= count then xs else xs[..count]
  }

  function KeyOf(action: Action): Key {
    (action.commandId, action.ordinal)
  }

  function WithoutKey(pending: seq<LeasedAction>, key: Key): (r: seq<LeasedAction>)
    ensures forall a :: a in r <==> a in pending && KeyOf(a.work) != key
  {
    if |pending| == 0 then []
    else (if KeyOf(pending[0].work) == key then [] else [pending[0]]) + WithoutKey(pending[1..], key)
  }

  /** The pending actions no one has leased, in order. */
  function Available(pending: seq<LeasedAction>, active: set<Key>): (r: seq<LeasedAction>)
    ensures forall a :: a in r <==> a in pending && KeyOf(a.work) !in active
  {
    if |pending| == 0 then []
    else (if KeyOf(pending[0].work) in active then [] else [pending[0]]) + Available(pending[1..], active)
  }

  // ---------------------------------------------------------------- commands

  function WithStatus(row: RowValue, status: Status): RowValue {
    row.(record := row.record.(status := status))
  }

  function SubmitSpec(s: Store, machine: string, entity: string, key: string, event: int): (Store, SubmitOutcome) {
    match FindKey(s.rows, entity, key)
    case Some(i) => (s, AlreadySubmitted(s.rows[i].record.id))
    case None =>
      var id := |s.rows| + 1;
      var record := Record(id, machine, entity, 1 + CountOf(s.rows, entity), key, event, Ready, 0);
      (s.(rows := s.rows + [RowValue(record, 0, 0)]), Accepted(id))
  }

  function Lease(s: Store, i: nat): Store
    requires i < |s.rows|
  {
    var row := s.rows[i];
    s.(token := s.token + 1,
       rows := s.rows[i := RowValue(row.record.(status := Leased), s.token + 1, row.deliveries + 1)])
  }

  /** The rows leased one after another, and what each lease hands out. */
  function LeaseAll(s: Store, indices: seq<nat>): (r: (Store, seq<LeasedCommand>))
    requires forall k | 0 <= k < |indices| :: indices[k] < |s.rows|
    ensures |r.0.rows| == |s.rows| && |r.1| == |indices|
    ensures r.0 == s.(token := r.0.token, rows := r.0.rows)
  {
    if |indices| == 0 then (s, [])
    else
      var (s1, leased) := LeaseAll(s, indices[..|indices| - 1]);
      var i := indices[|indices| - 1];
      var s2 := Lease(s1, i);
      (s2, leased + [LeasedCommand(s2.rows[i].record, s2.token, s2.rows[i].deliveries)])
  }

  lemma LeaseAllStep(s: Store, indices: seq<nat>, k: nat)
    requires (forall n | 0 <= n < |indices| :: indices[n] < |s.rows|) && k < |indices|
    ensures
      var (s1, leased) := LeaseAll(s, indices[..k]);
      var s2 := Lease(s1, indices[k]);
      LeaseAll(s, indices[..k + 1]) ==
      (s2, leased + [LeasedCommand(s2.rows[indices[k]].record, s2.token, s2.rows[indices[k]].deliveries)])
  {
    assert indices[..k + 1][..k] == indices[..k];
  }

  function ToLease(rows: seq<RowValue>, machine: string, batch: int): (r: seq<nat>)
    ensures forall k | 0 <= k < |r| :: r[k] < |rows| && Eligible(rows, machine, r[k])
  {
    var eligible := EligibleBelow(rows, machine, |rows|);
    assert forall k | 0 <= k < |eligible| :: eligible[k] in eligible;
    Truncate(eligible, batch)
  }

  function ClaimSpec(s: Store, machine: string, batch: int): (Store, seq<LeasedCommand>) {
    LeaseAll(s, ToLease(s.rows, machine, batch))
  }

  /** A failed attempt's row: ready again, with the attempt counted. */
  function Retried(row: RowValue): RowValue {
    row.(record := row.record.(status := Ready, attempts := row.record.attempts + 1))
  }

  function RescheduleSpec(s: Store, id: int, lease: int): (Store, Answer<LeaseOutcome>) {
    match RowOf(s.rows, id)
    case None => (s, Missing)
    case Some(i) =>
      if Owns(s.rows[i], lease) then (s.(rows := s.rows[i := Retried(s.rows[i])]), Ok(Updated)) else (s, Ok(Lost))
  }

  function ExpiredRow(row: RowValue): RowValue {
    if row.record.status == Leased then WithStatus(row, Ready) else row
  }

  function ExpiredRows(rows: seq<RowValue>): (r: seq<RowValue>)
    ensures |r| == |rows| && forall i | 0 <= i < |rows| :: r[i] == ExpiredRow(rows[i])
  {
    seq(|rows|, i requires 0 <= i < |rows| => ExpiredRow(rows[i]))
  }

  function ExpireSpec(s: Store): Store {
    s.(rows := ExpiredRows(s.rows), active := {})
  }

  /** The pending actions of the first `n` actions of a draft. */
  function NewActions(draft: Draft, id: int, epoch: nat, n: nat): (r: seq<LeasedAction>)
    requires n <= |draft.actions|
    ensures |r| == n
    ensures forall k | 0 <= k < n ::
      r[k] == LeasedAction(Action(draft.machine, draft.entity, id, epoch, k, draft.actions[k]), 0, 0)
  {
    seq(n, k requires 0 <= k < n =>
      LeasedAction(Action(draft.machine, draft.entity, id, epoch, k, draft.actions[k]), 0, 0))
  }

  function Committed(s: Store, i: nat, id: int, lease: int, draft: Draft): Store
    requires i < |s.rows|
  {
    var epoch := SnapshotOf(s.snapshots, draft.entity).epoch + 1;
    s.(history := s.history + [Transition(draft, epoch, id)],
       snapshots := s.snapshots[draft.entity := Snapshot(draft.toState, epoch)],
       rows := s.rows[i := WithStatus(s.rows[i], Succeeded).(token := lease)],
       pending := s.pending + NewActions(draft, id, epoch, |draft.actions|))
  }

  /** `Commit` after `BeforeCommit`, under the lock. */
  function CommitSpec(s: Store, id: int, lease: int, expected: nat, draft: Draft): (Store, Answer<FinalizeOutcome>) {
    match RowOf(s.rows, id)
    case None => (s, Missing)
    case Some(i) =>
      var row := s.rows[i];
      var previous := SnapshotOf(s.snapshots, draft.entity);
      if row.record.status == Succeeded && row.token == lease then (s, Ok(AlreadyFinalized(previous.epoch)))
      else if !Owns(row, lease) then (s.(fenced := s.fenced + 1), Ok(LeaseLost))
      else if expected != previous.epoch then (s, Ok(Conflict(expected, previous.epoch)))
      else if s.faults.failCommit then (s, Unavailable)
      else
        var s1 := Committed(s, i, id, lease, draft);
        if s.faults.loseCommitResponse then (s1.(faults := s.faults.(loseCommitResponse := false)), Unavailable)
        else (s1, Ok(Finalized(previous.epoch + 1)))
  }

  /** `Reject` and `DeadLetter`. */
  function FinishSpec(s: Store, id: int, lease: int, status: Status): (Store, Answer<FinalizeOutcome>) {
    match RowOf(s.rows, id)
    case None => (s, Missing)
    case Some(i) =>
      var row := s.rows[i];
      if Owns(row, lease) then
        (s.(rows := s.rows[i := WithStatus(row, status)]),
         Ok(Finalized(SnapshotOf(s.snapshots, row.record.entity).epoch)))
      else (s, Ok(LeaseLost))
  }

  // ---------------------------------------------------------------- actions

  function LeaseAction(s: Store, a: LeasedAction): Store {
    s.(token := s.token + 1, active := s.active + {KeyOf(a.work)})
  }

  function LeaseActions(s: Store, actions: seq<LeasedAction>): (r: (Store, seq<LeasedAction>))
    ensures r.0 == s.(token := s.token + |actions|, active := r.0.active)
    ensures forall k :: k in r.0.active <==> k in s.active || exists a | a in actions :: KeyOf(a.work) == k
  {
    if |actions| == 0 then (s, [])
    else
      var last := |actions| - 1;
      var (s1, leased) := LeaseActions(s, actions[..last]);
      var a := actions[last];
      assert actions == actions[..last] + [a];
      var s2 := LeaseAction(s1, a);
      (s2, leased + [LeasedAction(a.work, s2.token, a.deliveries + 1)])
  }

  lemma LeaseActionsStep(s: Store, actions: seq<LeasedAction>, k: nat)
    requires k < |actions|
    ensures
      var (s1, leased) := LeaseActions(s, actions[..k]);
      var s2 := LeaseAction(s1, actions[k]);
      LeaseActions(s, actions[..k + 1]) == (s2, leased +
        [LeasedAction(actions[k].work, s2.token, actions[k].deliveries + 1)])
  {
    assert actions[..k + 1][..k] == actions[..k];
  }

  function ClaimActionsSpec(s: Store, batch: int): (Store, seq<LeasedAction>) {
    LeaseActions(s, Truncate(Available(s.pending, s.active), batch))
  }

  function CompleteSpec(s: Store, action: Action): (Store, Answer<LeaseOutcome>) {
    var s1 := s.(active := s.active - {KeyOf(action)});
    if s.faults.loseAck then (s1.(faults := s.faults.(loseAck := false)), Unavailable)
    else (s1.(pending := WithoutKey(s.pending, KeyOf(action)), acknowledged := s.acknowledged + 1), Ok(Updated))
  }

  function RescheduleActionSpec(s: Store, action: Action): Store {
    s.(active := s.active - {KeyOf(action)})
  }

  function AbandonSpec(s: Store, action: Action): Store {
    s.(pending := WithoutKey(s.pending, KeyOf(action)))
  }

  // ---------------------------------------------------------------- the destination

  /** The action handler: every delivery is an attempt, and only the first of a key has an effect. */
  function Handled(seen: set<Key>, attempts: nat, effects: nat, key: Key): (set<Key>, nat, nat) {
    (seen + {key}, attempts + 1, if key in seen then effects else effects + 1)
  }
}
