/** What holds in every reachable state of the store and its users, and what every step preserves. */
module StoreSafety {
  import opened StoreSpec
  import opened StoreSystem
  import opened StoreInvariant

  // ---------------------------------------------------------------- the outbox

  lemma {:induction false} WithoutKeyIndex(pending: seq<LeasedAction>, key: Key)
    ensures forall a :: a in WithoutKey(pending, key) <==> a in pending && KeyOf(a.work) != key
    ensures KeysDistinct(pending) ==> KeysDistinct(WithoutKey(pending, key))
    ensures (forall a | a in pending :: KeyOf(a.work) != key) ==> WithoutKey(pending, key) == pending
    ensures KeysDistinct(pending) && (exists a | a in pending :: KeyOf(a.work) == key) ==>
      |WithoutKey(pending, key)| == |pending| - 1
  {
    if |pending| > 0 {
      var first, rest := pending[0], pending[1..];
      assert pending == [first] + rest;
      WithoutKeyIndex(rest, key);
      if KeysDistinct(pending) {
        RestDistinct(pending);
        if KeyOf(first.work) == key {
          assert WithoutKey(rest, key) == rest;
        }
      }
    }
  }

  lemma RestDistinct(pending: seq<LeasedAction>)
    requires |pending| > 0 && KeysDistinct(pending)
    ensures KeysDistinct(pending[1..])
    ensures forall a | a in pending[1..] :: KeyOf(a.work) != KeyOf(pending[0].work)
  {
    var rest := pending[1..];
    forall a, b | 0 <= a < b < |rest|
      ensures KeyOf(rest[a].work) != KeyOf(rest[b].work)
    {
      assert rest[a] == pending[a + 1] && rest[b] == pending[b + 1];
    }
    forall a | a in rest
      ensures KeyOf(a.work) != KeyOf(pending[0].work)
    {
      var k :| 0 <= k < |rest| && rest[k] == a;
      assert pending[k + 1] == a;
    }
  }

  /** Every pending action is the first of a committed command. */
  predicate FromHistory(pending: seq<LeasedAction>, history: seq<Transition>) {
    forall a | a in pending :: a.work.ordinal == 0 && InHistory(history, a.work.commandId)
  }

  lemma OutboxMeans(sys: System)
    ensures Outbox(sys) <==>
      && KeysDistinct(sys.store.pending) && FromHistory(sys.store.pending, sys.store.history)
      && |sys.store.pending| + sys.store.acknowledged + sys.abandoned == |sys.store.history| + sys.surplus
  {
    var pending := sys.store.pending;
    if Outbox(sys) {
      forall a | a in pending
        ensures a.work.ordinal == 0 && InHistory(sys.store.history, a.work.commandId)
      {
        var k :| 0 <= k < |pending| && pending[k] == a;
      }
    }
  }

  lemma InHistoryGrows(history: seq<Transition>, t: Transition, id: int)
    requires InHistory(history, id)
    ensures InHistory(history + [t], id)
  {
    var p :| 0 <= p < |history| && history[p].commandId == id;
    assert (history + [t])[p].commandId == id;
  }

  lemma SucceededIsRecorded(rows: seq<RowValue>, history: seq<Transition>, i: nat)
    requires Recorded(rows, history) && i < |rows|
    ensures rows[i].record.status == Succeeded <==> InHistory(history, i + 1)
  {
    if InHistory(history, i + 1) {
      var p :| 0 <= p < |history| && history[p].commandId == i + 1;
      assert Linked(rows, history[p]);
    }
    assert rows[i].record.status == Succeeded <==> HasSucceeded(rows, i + 1);
  }

  /** The action of a command not yet in the history joins the pending ones. */
  lemma AddPending(pending: seq<LeasedAction>, history: seq<Transition>, t: Transition, added: LeasedAction)
    requires KeysDistinct(pending) && FromHistory(pending, history) && !InHistory(history, t.commandId)
    requires added.work.ordinal == 0 && added.work.commandId == t.commandId
    ensures KeysDistinct(pending + [added]) && FromHistory(pending + [added], history + [t])
  {
    forall a | a in pending + [added]
      ensures a.work.ordinal == 0 && InHistory(history + [t], a.work.commandId)
    {
      if a in pending {
        InHistoryGrows(history, t, a.work.commandId);
      } else {
        assert (history + [t])[|history|].commandId == a.work.commandId;
      }
    }
    forall a | 0 <= a < |pending|
      ensures KeyOf(pending[a].work) != KeyOf(added.work)
    {
      assert pending[a] in pending;
    }
  }

  lemma CommitOutbox(sys: System, i: nat, lease: int, draft: Draft)
    requires Outbox(sys) && Recorded(sys.store.rows, sys.store.history)
    requires i < |sys.store.rows| && sys.store.rows[i].record.status == Leased && draft.actions == [EFFECT]
    ensures Outbox(sys.(store := Committed(sys.store, i, i + 1, lease, draft)))
  {
    var s := sys.store;
    var s1 := Committed(s, i, i + 1, lease, draft);
    OutboxMeans(sys);
    SucceededIsRecorded(s.rows, s.history, i);
    var epoch := s1.history[|s.history|].epoch;
    var added := NewActions(draft, i + 1, epoch, 1);
    AddPending(s.pending, s.history, s1.history[|s.history|], added[0]);
    assert added == [added[0]];
    OutboxMeans(sys.(store := s1));
  }

  lemma RemoveOutbox(sys: System, key: Key, s1: Store, acknowledged: nat)
    requires Outbox(sys) && s1.pending == WithoutKey(sys.store.pending, key) && s1.history == sys.store.history
    requires s1.acknowledged == sys.store.acknowledged + acknowledged && acknowledged <= 1
    ensures
      var present := if IsPending(sys.store, key) then 1 else 0;
      Outbox(sys.(store := s1, abandoned := sys.abandoned + (1 - acknowledged) * present,
                  surplus := sys.surplus + acknowledged * (1 - present)))
  {
    var present := if IsPending(sys.store, key) then 1 else 0;
    WithoutKeyIndex(sys.store.pending, key);
    OutboxMeans(sys);
    OutboxMeans(sys.(store := s1, abandoned := sys.abandoned + (1 - acknowledged) * present,
                     surplus := sys.surplus + acknowledged * (1 - present)));
  }

  lemma CommitByOutbox(sys: System, k: nat)
    requires Outbox(sys) && Sound(sys.store, sys.workers) && k < |sys.workers| && sys.workers[k].read.Some?
    ensures Outbox(sys.(store := CommitBy(sys.store, sys.workers[k]).0))
  {
    WorkerCommitsOutbox(sys, sys.workers[k]);
  }

  lemma WorkerCommitsOutbox(sys: System, w: Worker)
    requires Outbox(sys) && Recorded(sys.store.rows, sys.store.history)
    requires Numbered(sys.store.rows) && WorkerFits(sys.store, w) && w.read.Some?
    ensures Outbox(sys.(store := CommitBy(sys.store, w).0))
  {
    var s, s1, i := sys.store, CommitBy(sys.store, w).0, w.work.id - 1;
    CommitCases(s, w);
    if Owns(s.rows[i], w.token) && s1 != s && s1 != s.(fenced := s.fenced + 1) {
      CommitOutbox(sys, i, w.token, w.read.value.1);
      SameOutbox(sys.(store := Committed(s, i, i + 1, w.token, w.read.value.1)), sys.(store := s1));
    } else {
      SameOutbox(sys, sys.(store := s1));
    }
  }

  /** The calls that touch neither the pending actions nor the history. */
  lemma NextLeavesOutbox(sys: System, e: Event)
    requires Possible(sys, e) && !e.Commit? && !e.Complete? && !e.Abandon?
    ensures
      var sys1 := Next(sys, e);
      && sys1.store.pending == sys.store.pending && sys1.store.history == sys.store.history
      && sys1.store.acknowledged == sys.store.acknowledged
      && sys1.abandoned == sys.abandoned && sys1.surplus == sys.surplus
  {
  }

  lemma SameOutbox(sys: System, sys1: System)
    requires Outbox(sys)
    requires sys1.store.pending == sys.store.pending && sys1.store.history == sys.store.history
    requires sys1.store.acknowledged == sys.store.acknowledged
    requires sys1.abandoned == sys.abandoned && sys1.surplus == sys.surplus
    ensures Outbox(sys1)
  {
  }

  lemma NextOutbox(sys: System, e: Event)
    requires Outbox(sys) && Sound(sys.store, sys.workers) && Possible(sys, e)
    ensures Outbox(Next(sys, e))
  {
    if e.Commit? {
      CommitByOutbox(sys, e.worker);
    } else {
      OtherOutbox(sys, e);
    }
  }

  lemma OtherOutbox(sys: System, e: Event)
    requires Outbox(sys) && Possible(sys, e) && !e.Commit?
    ensures Outbox(Next(sys, e))
  {
    if e.Complete? {
      CompleteOutbox(sys, e.action);
    } else if e.Abandon? {
      RemoveOutbox(sys, KeyOf(e.action), AbandonSpec(sys.store, e.action), 0);
    } else {
      NextLeavesOutbox(sys, e);
      SameOutbox(sys, Next(sys, e));
    }
  }

  lemma CompleteOutbox(sys: System, action: Action)
    requires Outbox(sys)
    ensures Outbox(Next(sys, Event.Complete(action)))
  {
    var s1 := CompleteSpec(sys.store, action).0;
    if sys.store.faults.loseAck {
      SameOutbox(sys, sys.(store := s1));
    } else {
      RemoveOutbox(sys, KeyOf(action), s1, 1);
    }
  }

  // ---------------------------------------------------------------- every reachable state

  lemma EmptyInv()
    ensures Inv(EMPTY)
  {
    forall entity
      ensures EntityBooks(EMPTY.store, entity)
    {
      assert EMPTY.store.history == [];
    }
  }

  lemma NextInv(sys: System, e: Event)
    requires Inv(sys) && Possible(sys, e)
    ensures Inv(Next(sys, e))
  {
    NextSound(sys, e);
    NextOutbox(sys, e);
    NextEffects(sys, e);
  }

  lemma NextEffects(sys: System, e: Event)
    requires Effects(sys) && Possible(sys, e)
    ensures Effects(Next(sys, e))
  {
    if e.Deliver? && KeyOf(e.action) in sys.seen {
      assert sys.seen + {KeyOf(e.action)} == sys.seen;
    }
  }

  /** The invariant holds after every sequence of calls, however interleaved. */
  lemma {:induction false} InvAlways(sys: System, events: seq<Event>)
    requires Inv(sys) && PossibleRun(sys, events)
    ensures Inv(Run(sys, events))
    decreases |events|
  {
    if |events| > 0 {
      NextInv(sys, events[0]);
      InvAlways(Next(sys, events[0]), events[1..]);
    }
  }

  ghost predicate Reachable(sys: System) {
    exists events :: PossibleRun(EMPTY, events) && Run(EMPTY, events) == sys
  }

  lemma ReachableInv(sys: System)
    requires Reachable(sys)
    ensures Inv(sys)
  {
    var events :| PossibleRun(EMPTY, events) && Run(EMPTY, events) == sys;
    EmptyInv();
    InvAlways(EMPTY, events);
  }

  // ---------------------------------------------------------------- what it means

  /** Exactly once: in every reachable state an entity's state is the 32-bit sum of the payloads of its Succeeded
      commands, its epoch is their number, its transitions are numbered from one and each starts where the one before
      ended, no command is in the history twice, and those in it are the Succeeded ones. */
  lemma ExactlyOnce(sys: System, entity: string)
    requires Reachable(sys)
    ensures
      var s := sys.store;
      var snapshot := SnapshotOf(s.snapshots, entity);
      && snapshot.state == Wrap32(SumSucceeded(s.rows, entity))
      && snapshot.epoch == CountSucceeded(s.rows, entity)
      && Chain(HistoryOf(s.history, entity), snapshot)
      && (forall p, q | 0 <= p < q < |s.history| :: s.history[p].commandId != s.history[q].commandId)
      && (forall i | 0 <= i < |s.rows| :: s.rows[i].record.status == Succeeded <==> InHistory(s.history, i + 1))
  {
    BooksOfReachable(sys);
    var s := sys.store;
    assert EntityBooks(s, entity);
    forall i | 0 <= i < |s.rows|
      ensures s.rows[i].record.status == Succeeded <==> InHistory(s.history, i + 1)
    {
      SucceededIsRecorded(s.rows, s.history, i);
    }
  }

  lemma BooksOfReachable(sys: System)
    requires Reachable(sys)
    ensures Books(sys.store)
  {
    ReachableInv(sys);
  }

  /** The predecessors, by sequence, of a command that is leased or finished are final. */
  predicate PredecessorsFinal(rows: seq<RowValue>) {
    forall i, j | 0 <= i < |rows| && 0 <= j < |rows| && rows[i].record.entity == rows[j].record.entity
                  && rows[i].record.sequence < rows[j].record.sequence && rows[j].record.status != Ready ::
      Final(rows[i].record.status)
  }

  predicate OneLeasedPerEntity(rows: seq<RowValue>) {
    forall i, j | 0 <= i < |rows| && 0 <= j < |rows| && rows[i].record.entity == rows[j].record.entity
                  && rows[i].record.status == Leased && rows[j].record.status == Leased ::
      i == j
  }

  predicate Earlier(rows: seq<RowValue>, id: int, id1: int) {
    1 <= id <= |rows| && 1 <= id1 <= |rows| && rows[id - 1].record.sequence < rows[id1 - 1].record.sequence
  }

  predicate CommittedInSequence(rows: seq<RowValue>, history: seq<Transition>) {
    forall p, q | 0 <= p < q < |history| && history[p].draft.entity == history[q].draft.entity ::
      Earlier(rows, history[p].commandId, history[q].commandId)
  }

  lemma InOrderBySequence(rows: seq<RowValue>)
    requires Identified(rows) && InOrder(rows)
    ensures PredecessorsFinal(rows)
  {
    forall i, j | 0 <= i < |rows| && 0 <= j < |rows| && rows[i].record.entity == rows[j].record.entity
                  && rows[i].record.sequence < rows[j].record.sequence && rows[j].record.status != Ready
      ensures Final(rows[i].record.status)
    {
      SequenceIsOrder(rows, i, j);
    }
  }

  lemma RecordedInSequence(rows: seq<RowValue>, history: seq<Transition>)
    requires Identified(rows) && Recorded(rows, history)
    ensures CommittedInSequence(rows, history)
  {
    forall p, q | 0 <= p < q < |history| && history[p].draft.entity == history[q].draft.entity
      ensures Earlier(rows, history[p].commandId, history[q].commandId)
    {
      assert Linked(rows, history[p]) && Linked(rows, history[q]);
      SequenceIsOrder(rows, history[p].commandId - 1, history[q].commandId - 1);
    }
  }

  /** First in, first out: in every reachable state a leased or finished command's predecessors are final, at most one
      command of an entity is leased, and an entity's commits are in sequence order. */
  lemma FirstInFirstOut(sys: System)
    requires Reachable(sys)
    ensures PredecessorsFinal(sys.store.rows) && OneLeasedPerEntity(sys.store.rows)
    ensures CommittedInSequence(sys.store.rows, sys.store.history)
  {
    ReachableInv(sys);
    InOrderBySequence(sys.store.rows);
    RecordedInSequence(sys.store.rows, sys.store.history);
  }

  /** The lease alone serialises: whatever the others do between a worker's claim, its read and its commit, the commit
      is never refused for a conflict of epochs. */
  lemma LeaseSerialises(sys: System, worker: nat)
    requires Reachable(sys) && Possible(sys, Event.Commit(worker))
    ensures var answer := CommitBy(sys.store, sys.workers[worker]).1;
      answer != Missing && (answer.Ok? ==> !answer.value.Conflict?)
  {
    ReachableInv(sys);
    NeverConflict(sys.store, sys.workers, worker);
  }

  lemma CommitSkipsFinal(s: Store, id: int, lease: int, expected: nat, draft: Draft, i: nat)
    requires i < |s.rows| && Final(s.rows[i].record.status)
    ensures var rows := CommitSpec(s, id, lease, expected, draft).0.rows; i < |rows| && rows[i] == s.rows[i]
  {
  }

  lemma UnleaseSkipsFinal(s: Store, id: int, lease: int, status: Status, i: nat)
    requires i < |s.rows| && Final(s.rows[i].record.status)
    ensures var rows := RescheduleSpec(s, id, lease).0.rows; i < |rows| && rows[i] == s.rows[i]
    ensures var rows := FinishSpec(s, id, lease, status).0.rows; i < |rows| && rows[i] == s.rows[i]
  {
  }

  /** The row of a finished command is never touched again. */
  lemma FinalIsAbsorbing(sys: System, e: Event, i: nat)
    requires Possible(sys, e) && i < |sys.store.rows| && Final(sys.store.rows[i].record.status)
    ensures i < |Next(sys, e).store.rows| && Next(sys, e).store.rows[i] == sys.store.rows[i]
  {
    var s, ws := sys.store, sys.workers;
    match e {
      case Claim(machine, batch) => ClaimSkipsFinal(s, ToLease(s.rows, machine, batch), i);
      case Commit(w) =>
        CommitSkipsFinal(s, ws[w].work.id, ws[w].token, ws[w].read.value.0, ws[w].read.value.1, i);
      case Reschedule(w) => UnleaseSkipsFinal(s, ws[w].work.id, ws[w].token, Status.Rejected, i);
      case Reject(w) => UnleaseSkipsFinal(s, ws[w].work.id, ws[w].token, Status.Rejected, i);
      case DeadLetter(w) => UnleaseSkipsFinal(s, ws[w].work.id, ws[w].token, DeadLettered, i);
      case _ =>
    }
  }

  lemma ClaimSkipsFinal(s: Store, indices: seq<nat>, i: nat)
    requires forall k | 0 <= k < |indices| :: indices[k] < |s.rows| && s.rows[indices[k]].record.status == Ready
    requires i < |s.rows| && Final(s.rows[i].record.status)
    ensures LeaseAll(s, indices).0.rows[i] == s.rows[i]
  {
    LeaseAllRows(s, indices);
  }

  /** Over a whole run too. */
  lemma {:induction false} FinalForEver(sys: System, events: seq<Event>, i: nat)
    requires PossibleRun(sys, events) && i < |sys.store.rows| && Final(sys.store.rows[i].record.status)
    ensures i < |Run(sys, events).store.rows| && Run(sys, events).store.rows[i] == sys.store.rows[i]
    decreases |events|
  {
    if |events| > 0 {
      FinalIsAbsorbing(sys, events[0], i);
      FinalForEver(Next(sys, events[0]), events[1..], i);
    }
  }

  /** The position of the first unfinished row. */
  lemma {:induction false} FirstUnfinished(rows: seq<RowValue>, i: nat) returns (first: nat)
    requires i < |rows| && !Final(rows[i].record.status)
    ensures first <= i && !Final(rows[first].record.status)
    ensures forall j | 0 <= j < first :: Final(rows[j].record.status)
    decreases i
  {
    if j :| 0 <= j < i && !Final(rows[j].record.status) {
      first := FirstUnfinished(rows, j);
    } else {
      first := i;
    }
  }

  lemma ExpiredLeasable(rows: seq<RowValue>, i: nat)
    requires i < |rows| && !Final(rows[i].record.status) && forall j | 0 <= j < i :: Final(rows[j].record.status)
    ensures Leasable(ExpiredRows(rows), i)
  {
    forall j | 0 <= j < i
      ensures Final(ExpiredRows(rows)[j].record.status)
    {
      assert Final(rows[j].record.status);
    }
  }

  lemma SomeEligible(rows: seq<RowValue>, machine: string, i: nat, batch: int)
    requires Identified(rows) && i < |rows| && Leasable(rows, i) && rows[i].record.machine == machine && batch >= 1
    ensures |ToLease(rows, machine, batch)| >= 1
  {
    EligibleIsLeasable(rows, machine, i);
    assert i in EligibleBelow(rows, machine, |rows|);
  }

  /** No wedge: with one machine and an unfinished command, expiring the leases and claiming hands out a command. */
  lemma NeverWedged(sys: System, machine: string, i: nat, batch: int)
    requires Reachable(sys) && batch >= 1
    requires forall j | 0 <= j < |sys.store.rows| :: sys.store.rows[j].record.machine == machine
    requires i < |sys.store.rows| && !Final(sys.store.rows[i].record.status)
    ensures |ClaimSpec(ExpireSpec(sys.store), machine, batch).1| >= 1
  {
    ReachableInv(sys);
    ExpireKeeps(sys.store, sys.workers);
    var rows := ExpiredRows(sys.store.rows);
    var first := FirstUnfinished(sys.store.rows, i);
    ExpiredLeasable(sys.store.rows, first);
    SomeEligible(rows, machine, first, batch);
  }

  // ---------------------------------------------------------------- actions and effects

  /** Pending keys are always distinct, and every committed action is pending, acknowledged or abandoned: the number of
      those is exceeded by the number of acknowledgments of actions that were no longer pending, and by nothing else. */
  lemma OutboxConserved(sys: System)
    requires Reachable(sys)
    ensures
      var s := sys.store;
      && KeysDistinct(s.pending)
      && |s.pending| + s.acknowledged + sys.abandoned == |s.history| + sys.surplus
      && (sys.abandoned == 0 ==> |s.pending| + s.acknowledged >= |s.history|)
      && (sys.abandoned == 0 ==> (|s.pending| + s.acknowledged == |s.history| <==> sys.surplus == 0))
  {
    ReachableInv(sys);
  }

  /** Every abandoned action was no longer pending. */
  predicate AbandonsNothing(sys: System, events: seq<Event>)
    requires PossibleRun(sys, events)
    decreases |events|
  {
    |events| == 0 ||
    ((events[0].Abandon? ==> !IsPending(sys.store, KeyOf(events[0].action))) &&
     AbandonsNothing(Next(sys, events[0]), events[1..]))
  }

  lemma {:induction false} NothingAbandoned(sys: System, events: seq<Event>)
    requires PossibleRun(sys, events)
    ensures Run(sys, events).abandoned >= sys.abandoned
    ensures Run(sys, events).abandoned == sys.abandoned <==> AbandonsNothing(sys, events)
    decreases |events|
  {
    if |events| > 0 {
      NothingAbandoned(Next(sys, events[0]), events[1..]);
    }
  }

  /** Every completed action was still pending, or its acknowledgment was lost. */
  predicate CompletesPending(sys: System, events: seq<Event>)
    requires PossibleRun(sys, events)
    decreases |events|
  {
    |events| == 0 ||
    ((events[0].Complete? ==> sys.store.faults.loseAck || IsPending(sys.store, KeyOf(events[0].action))) &&
     CompletesPending(Next(sys, events[0]), events[1..]))
  }

  lemma {:induction false} NoSurplus(sys: System, events: seq<Event>)
    requires PossibleRun(sys, events)
    ensures Run(sys, events).surplus >= sys.surplus
    ensures Run(sys, events).surplus == sys.surplus <==> CompletesPending(sys, events)
    decreases |events|
  {
    if |events| > 0 {
      NoSurplus(Next(sys, events[0]), events[1..]);
    }
  }

  /** For a run that abandons no pending action: pending plus acknowledged is never less than the actions committed, and
      equals it exactly when every acknowledged completion was of an action still pending. */
  lemma OutboxOfRun(events: seq<Event>)
    requires PossibleRun(EMPTY, events) && AbandonsNothing(EMPTY, events)
    ensures
      var s := Run(EMPTY, events).store;
      && |s.pending| + s.acknowledged >= |s.history|
      && (|s.pending| + s.acknowledged == |s.history| <==> CompletesPending(EMPTY, events))
  {
    OutboxConserved(Run(EMPTY, events));
    NothingAbandoned(EMPTY, events);
    NoSurplus(EMPTY, events);
  }

  function Delivered(events: seq<Event>): set<Key> {
    set e | e in events && e.Deliver? :: KeyOf(e.action)
  }

  function Deliveries(events: seq<Event>): nat {
    if |events| == 0 then 0 else (if events[0].Deliver? then 1 else 0) + Deliveries(events[1..])
  }

  lemma NextEffect(sys: System, e: Event)
    requires Possible(sys, e)
    ensures Next(sys, e).seen == sys.seen + (if e.Deliver? then {KeyOf(e.action)} else {})
    ensures Next(sys, e).attempts == sys.attempts + (if e.Deliver? then 1 else 0)
  {
  }

  lemma DeliveredSplit(events: seq<Event>)
    requires |events| > 0
    ensures Delivered(events) == (if events[0].Deliver? then {KeyOf(events[0].action)} else {}) + Delivered(events[1..])
  {
    assert events == [events[0]] + events[1..];
  }

  lemma RunStep(sys: System, events: seq<Event>)
    requires |events| > 0 && PossibleRun(sys, events)
    ensures Possible(sys, events[0]) && PossibleRun(Next(sys, events[0]), events[1..])
    ensures Run(sys, events) == Run(Next(sys, events[0]), events[1..])
  {
  }

  lemma {:induction false} EffectsAlways(sys: System, events: seq<Event>)
    requires Effects(sys) && PossibleRun(sys, events)
    ensures Effects(Run(sys, events))
    decreases |events|
  {
    if |events| > 0 {
      RunStep(sys, events);
      NextEffects(sys, events[0]);
      EffectsAlways(Next(sys, events[0]), events[1..]);
    }
  }

  lemma {:induction false} SeenIsDelivered(sys: System, events: seq<Event>)
    requires PossibleRun(sys, events)
    ensures Run(sys, events).seen == sys.seen + Delivered(events)
    ensures Run(sys, events).attempts == sys.attempts + Deliveries(events)
    decreases |events|
  {
    if |events| > 0 {
      RunStep(sys, events);
      NextEffect(sys, events[0]);
      DeliveredSplit(events);
      SeenIsDelivered(Next(sys, events[0]), events[1..]);
    }
  }

  /** The destination has applied each key ever delivered exactly once, however often it was redelivered. */
  lemma EffectsAreKeysDelivered(events: seq<Event>)
    requires PossibleRun(EMPTY, events)
    ensures
      var after := Run(EMPTY, events);
      after.effects == |Delivered(events)| && after.attempts == Deliveries(events)
  {
    SeenIsDelivered(EMPTY, events);
    EffectsAlways(EMPTY, events);
    assert {} + Delivered(events) == Delivered(events);
  }
}
