/** What the store's answers mean to those who get them, now and later. */
module StoreAnswers {
  import opened StoreSpec
  import opened StoreSystem
  import opened StoreInvariant
  import opened StoreSafety

  // ---------------------------------------------------------------- submit

  /** The first row with an entity and key keeps its place while rows are only appended or changed in status. */
  lemma {:induction false} FindKeyKept(rows: seq<RowValue>, rows1: seq<RowValue>, entity: string, key: string)
    requires |rows| <= |rows1| && forall i | 0 <= i < |rows| :: SameCommand(rows[i].record, rows1[i].record)
    requires FindKey(rows, entity, key).Some?
    ensures FindKey(rows1, entity, key) == FindKey(rows, entity, key)
    decreases |rows1|
  {
    var shorter := rows1[..|rows1| - 1];
    if |rows| < |rows1| {
      FindKeyKept(rows, shorter, entity, key);
    } else {
      var last := |rows| - 1;
      assert SameCommand(rows[last].record, rows1[last].record);
      if FindKey(rows[..last], entity, key).Some? {
        forall i | 0 <= i < last
          ensures SameCommand(rows[..last][i].record, shorter[i].record)
        {
          assert SameCommand(rows[i].record, rows1[i].record);
        }
        FindKeyKept(rows[..last], shorter, entity, key);
      } else {
        forall i | 0 <= i < last
          ensures !HasKey(shorter[i], entity, key)
        {
          assert SameCommand(rows[i].record, rows1[i].record) && !HasKey(rows[..last][i], entity, key);
        }
      }
    }
  }

  /** Commands are never lost, renamed or rebound. */
  predicate Extends(rows: seq<RowValue>, rows1: seq<RowValue>) {
    |rows| <= |rows1| && forall i | 0 <= i < |rows| :: SameCommand(rows[i].record, rows1[i].record)
  }

  lemma ExtendsTrans(a: seq<RowValue>, b: seq<RowValue>, c: seq<RowValue>)
    requires Extends(a, b) && Extends(b, c)
    ensures Extends(a, c)
  {
    forall i | 0 <= i < |a|
      ensures SameCommand(a[i].record, c[i].record)
    {
      assert SameCommand(a[i].record, b[i].record) && SameCommand(b[i].record, c[i].record);
    }
  }

  lemma NextExtends(sys: System, e: Event)
    requires Possible(sys, e)
    ensures Extends(sys.store.rows, Next(sys, e).store.rows)
  {
    if e.Claim? {
      LeaseAllRows(sys.store, ToLease(sys.store.rows, e.machine, e.batch));
    } else if e.Commit? {
      CommitExtends(sys.store, sys.workers[e.worker]);
    }
  }

  lemma CommitExtends(s: Store, w: Worker)
    requires w.read.Some?
    ensures Extends(s.rows, CommitBy(s, w).0.rows)
  {
  }

  lemma {:induction false} RunExtends(sys: System, events: seq<Event>)
    requires PossibleRun(sys, events)
    ensures Extends(sys.store.rows, Run(sys, events).store.rows)
    decreases |events|
  {
    if |events| > 0 {
      RunStep(sys, events);
      NextExtends(sys, events[0]);
      RunExtends(Next(sys, events[0]), events[1..]);
      ExtendsTrans(sys.store.rows, Next(sys, events[0]).store.rows, Run(sys, events).store.rows);
    }
  }

  /** Submitting is idempotent: whatever happens in between, submitting the same entity and key again, even with another
      payload, answers with the id first accepted and changes nothing. */
  lemma SubmitIsIdempotent(
      sys: System, machine: string, entity: string, key: string, event: int, events: seq<Event>,
        machine1: string, event1: int)
    requires Inv(sys) && PossibleRun(Next(sys, Event.Submit(machine, entity, key, event)), events)
    ensures
      var id := SubmitSpec(sys.store, machine, entity, key, event).1.id;
      var later := Run(Next(sys, Event.Submit(machine, entity, key, event)), events).store;
      SubmitSpec(later, machine1, entity, key, event1) == (later, AlreadySubmitted(id))
  {
    var sys1 := Next(sys, Event.Submit(machine, entity, key, event));
    var s1, later := sys1.store, Run(sys1, events).store;
    SubmittedFound(sys.store, machine, entity, key, event);
    RunExtends(sys1, events);
    FindKeyKept(s1.rows, later.rows, entity, key);
    var i := FindKey(s1.rows, entity, key).value;
    assert SameCommand(s1.rows[i].record, later.rows[i].record);
  }

  lemma SubmittedFound(s: Store, machine: string, entity: string, key: string, event: int)
    ensures
      var (s1, outcome) := SubmitSpec(s, machine, entity, key, event);
      var found := FindKey(s1.rows, entity, key);
      found.Some? && s1.rows[found.value].record.id == outcome.id
  {
    var s1 := SubmitSpec(s, machine, entity, key, event).0;
    if FindKey(s.rows, entity, key).None? {
      assert s1.rows[..|s1.rows| - 1] == s.rows;
      assert HasKey(s1.rows[|s.rows|], entity, key);
    }
  }

  // ---------------------------------------------------------------- claim

  /** The `k`-th command handed out is the row at the `k`-th eligible position, leased with the `k`-th fresh token. */
  predicate HandedOut(s: Store, s1: Store, i: nat, k: nat, c: LeasedCommand) {
    && i < |s.rows| == |s1.rows|
    && c == LeasedCommand(s.rows[i].record.(status := Leased), s.token + 1 + k, s.rows[i].deliveries + 1)
    && s1.rows[i] == RowValue(c.work, c.token, c.deliveries)
  }

  predicate Increasing(indices: seq<nat>) {
    forall a, b | 0 <= a < b < |indices| :: indices[a] < indices[b]
  }

  /** The rows at the positions have been leased, in order, and no other. */
  predicate Leases(s: Store, indices: seq<nat>, s1: Store, leased: seq<LeasedCommand>) {
    && |leased| == |indices| && |s1.rows| == |s.rows| && s1.token == s.token + |indices|
    && (forall k | 0 <= k < |indices| :: HandedOut(s, s1, indices[k], k, leased[k]))
    && (forall i | 0 <= i < |s.rows| && i !in indices :: s1.rows[i] == s.rows[i])
  }

  lemma {:induction false} LeaseAllMeans(s: Store, indices: seq<nat>)
    requires Increasing(indices) && forall k | 0 <= k < |indices| :: indices[k] < |s.rows|
    ensures var (s1, leased) := LeaseAll(s, indices); Leases(s, indices, s1, leased)
    decreases |indices|
  {
    if |indices| > 0 {
      var n := |indices| - 1;
      LeaseAllMeans(s, indices[..n]);
      var (s1, leased) := LeaseAll(s, indices[..n]);
      LastLease(s, s1, indices, leased);
    }
  }

  lemma LastLease(s: Store, s1: Store, indices: seq<nat>, leased: seq<LeasedCommand>)
    requires |indices| > 0 && Increasing(indices) && forall k | 0 <= k < |indices| :: indices[k] < |s.rows|
    requires Leases(s, indices[..|indices| - 1], s1, leased)
    ensures
      var i := indices[|indices| - 1];
      var s2 := Lease(s1, i);
      Leases(s, indices, s2, leased + [LeasedCommand(s2.rows[i].record, s2.token, s2.rows[i].deliveries)])
  {
    var n := |indices| - 1;
    var s2 := Lease(s1, indices[n]);
    var all := leased + [LeasedCommand(s2.rows[indices[n]].record, s2.token, s2.rows[indices[n]].deliveries)];
    assert indices[n] !in indices[..n];
    forall i | 0 <= i < |s.rows| && i !in indices
      ensures s2.rows[i] == s.rows[i]
    {
      assert indices[n] in indices && i !in indices[..n];
    }
    forall k | 0 <= k < |indices|
      ensures HandedOut(s, s2, indices[k], k, all[k])
    {
      if k < n {
        assert HandedOut(s, s1, indices[..n][k], k, leased[k]);
      }
    }
  }

  /** The first eligible rows, in order, as many as the batch allows. */
  predicate FirstEligible(rows: seq<RowValue>, machine: string, batch: int, indices: seq<nat>) {
    && (forall k | 0 <= k < |indices| :: indices[k] < |rows| && Eligible(rows, machine, indices[k]))
    && Increasing(indices) && |indices| <= (if batch < 0 then 0 else batch)
    && (forall i | 0 <= i < |rows| && Eligible(rows, machine, i) && i !in indices ::
          |indices| >= batch && forall k | 0 <= k < |indices| :: indices[k] < i)
  }

  lemma TruncatedPrefix<T>(xs: seq<T>, count: int)
    ensures
      var r := Truncate(xs, count);
      && |r| <= |xs| && r == xs[..|r|] && |r| <= (if count < 0 then 0 else count) && (|r| < |xs| ==> |r| >= count)
  {
  }

  lemma PrefixHas(xs: seq<nat>, n: nat, p: nat)
    requires n <= |xs| && p < |xs|
    ensures p < n ==> xs[p] in xs[..n]
  {
    if p < n {
      assert xs[..n][p] == xs[p];
    }
  }

  lemma AfterPrefix(xs: seq<nat>, n: nat, x: nat)
    requires Increasing(xs) && n <= |xs| && x in xs && x !in xs[..n]
    ensures n < |xs| && forall k | 0 <= k < n :: xs[k] < x
  {
    var p :| 0 <= p < |xs| && xs[p] == x;
    PrefixHas(xs, n, p);
  }

  lemma ToLeaseIsFirst(rows: seq<RowValue>, machine: string, batch: int)
    ensures FirstEligible(rows, machine, batch, ToLease(rows, machine, batch))
  {
    var eligible := EligibleBelow(rows, machine, |rows|);
    var indices := ToLease(rows, machine, batch);
    TruncatedPrefix(eligible, batch);
    forall i: nat | i in eligible && i !in indices
      ensures |indices| >= batch && forall k | 0 <= k < |indices| :: indices[k] < i
    {
      AfterPrefix(eligible, |indices|, i);
    }
  }

  /** A claim hands out the first commands, up to the batch, that are the machine's, ready and behind no unfinished
      command of their entity; each with a fresh token of its own and its delivery count raised; and touches no other
      row. */
  lemma ClaimHandsOut(s: Store, machine: string, batch: int)
    ensures FirstEligible(s.rows, machine, batch, ToLease(s.rows, machine, batch))
    ensures var (s1, leased) := ClaimSpec(s, machine, batch); Leases(s, ToLease(s.rows, machine, batch), s1, leased)
  {
    ToLeaseIsFirst(s.rows, machine, batch);
    LeaseAllMeans(s, ToLease(s.rows, machine, batch));
  }

  // ---------------------------------------------------------------- commit

  /** What each answer to a worker's commit says about the store before and after. */
  predicate AnswerFits(s: Store, s1: Store, id: int, draft: Draft, answer: Answer<FinalizeOutcome>) {
    match answer
    case Missing => false
    case Unavailable => s1 == s || (!InHistory(s.history, id) && InHistory(s1.history, id))
    case Ok(Conflict(_, _)) => false
    case Ok(LeaseLost) => s1 == s.(fenced := s.fenced + 1)
    case Ok(AlreadyFinalized(epoch)) =>
      s1 == s && InHistory(s.history, id) && epoch == SnapshotOf(s.snapshots, draft.entity).epoch
    case Ok(Finalized(epoch)) =>
      && !InHistory(s.history, id) && s1.history == s.history + [Transition(draft, epoch, id)]
      && SnapshotOf(s1.snapshots, draft.entity) == Snapshot(draft.toState, epoch)
  }

  /** Finalized is answered exactly by the commit that puts the command into the history, with the epoch it got;
      AlreadyFinalized only for one that is there already; and an unavailable store has committed or done nothing. */
  lemma CommitAnswers(sys: System, k: nat)
    requires Inv(sys) && Possible(sys, Event.Commit(k))
    ensures
      var s, w := sys.store, sys.workers[k];
      AnswerFits(s, CommitBy(s, w).0, w.work.id, w.read.value.1, CommitBy(s, w).1)
  {
    WorkerAnswers(sys.store, sys.workers[k]);
  }

  lemma WorkerAnswers(s: Store, w: Worker)
    requires Numbered(s.rows) && Recorded(s.rows, s.history) && WorkerFits(s, w) && w.read.Some?
    ensures AnswerFits(s, CommitBy(s, w).0, w.work.id, w.read.value.1, CommitBy(s, w).1)
  {
    var i := w.work.id - 1;
    RowOfId(s.rows, i);
    SucceededIsRecorded(s.rows, s.history, i);
    if Owns(s.rows[i], w.token) && !s.faults.failCommit {
      var s1 := CommitBy(s, w).0;
      assert s1.history[|s.history|].commandId == w.work.id;
    }
  }

  /** Which answer it is: decided by who owns the row and by the switches that inject faults, and the commit is written
      exactly when the worker owns the row and the store does not fail before. */
  predicate Answered(s: Store, s1: Store, row: RowValue, token: int, answer: Answer<FinalizeOutcome>) {
    var owned, done := Owns(row, token), row.record.status == Succeeded && row.token == token;
    && (answer.Ok? && answer.value.Finalized? <==> owned && !s.faults.failCommit && !s.faults.loseCommitResponse)
    && (answer.Unavailable? <==> owned && (s.faults.failCommit || s.faults.loseCommitResponse))
    && (answer.Ok? && answer.value.AlreadyFinalized? <==> done)
    && (answer.Ok? && answer.value.LeaseLost? <==> !owned && !done)
    && (|s1.history| > |s.history| <==> owned && !s.faults.failCommit)
    && s1.faults == (if owned && !s.faults.failCommit then s.faults.(loseCommitResponse := false) else s.faults)
  }

  lemma WhichAnswer(sys: System, k: nat)
    requires Inv(sys) && Possible(sys, Event.Commit(k))
    ensures
      var s, w := sys.store, sys.workers[k];
      && 1 <= w.work.id <= |s.rows|
      && Answered(s, CommitBy(s, w).0, s.rows[w.work.id - 1], w.token, CommitBy(s, w).1)
  {
    NeverConflict(sys.store, sys.workers, k);
    WorkerAnswered(sys.store, sys.workers[k]);
  }

  lemma WorkerAnswered(s: Store, w: Worker)
    requires Numbered(s.rows) && WorkerFits(s, w) && w.read.Some?
    ensures Answered(s, CommitBy(s, w).0, s.rows[w.work.id - 1], w.token, CommitBy(s, w).1)
  {
    RowOfId(s.rows, w.work.id - 1);
  }

  /** An owner that expects another epoch than the entity's is told so, and nothing changes. */
  lemma StaleIsConflict(s: Store, i: nat, lease: int, expected: nat, draft: Draft)
    requires Numbered(s.rows) && i < |s.rows| && Owns(s.rows[i], lease)
    ensures
      var (s1, answer) := CommitSpec(s, i + 1, lease, expected, draft);
      var epoch := SnapshotOf(s.snapshots, draft.entity).epoch;
      && (answer == Ok(Conflict(expected, epoch)) <==> expected != epoch)
      && (expected != epoch ==> s1 == s)
  {
    RowOfId(s.rows, i);
  }

  /** A worker that owns its row and whose payload is accepted gets its command committed by reading and committing,
      unless the store is made to fail. */
  lemma OwnerCommits(s: Store, w: Worker)
    requires Numbered(s.rows) && WorkerFits(s, w) && Owns(s.rows[w.work.id - 1], w.token)
    requires w.work.event >= 0 && !s.faults.failCommit
    ensures
      var w1, state := ReadBy(s, w), SnapshotOf(s.snapshots, w.work.entity).state;
      && w1.read.Some?
      && (var history := CommitBy(s, w1).0.history;
          && |history| == |s.history| + 1 && history[|s.history|].commandId == w.work.id
          && history[|s.history|].draft.toState == Wrap32(state + w.work.event))
  {
    RowOfId(s.rows, w.work.id - 1);
  }

  /** Progress: with one machine, a command unfinished, payloads that are accepted and a store that does not fail, four
      calls, to expire, claim, read and commit, commit one more command. */
  lemma ProgressIsPossible(sys: System, machine: string, i: nat) returns (events: seq<Event>)
    requires Reachable(sys) && !sys.store.faults.failCommit
    requires forall j | 0 <= j < |sys.store.rows| ::
        sys.store.rows[j].record.machine == machine && sys.store.rows[j].record.event >= 0
    requires i < |sys.store.rows| && !Final(sys.store.rows[i].record.status)
    ensures |events| == 4 && PossibleRun(sys, events)
    ensures |Run(sys, events).store.history| == |sys.store.history| + 1
  {
    ReachableInv(sys);
    NeverWedged(sys, machine, i, 1);
    events := ExpireAndCommit(sys, machine);
  }

  lemma ExpireAndCommit(sys: System, machine: string) returns (events: seq<Event>)
    requires Inv(sys) && |ClaimSpec(ExpireSpec(sys.store), machine, 1).1| >= 1 && !sys.store.faults.failCommit
    requires forall j | 0 <= j < |sys.store.rows| :: sys.store.rows[j].record.event >= 0
    ensures |events| == 4 && PossibleRun(sys, events)
    ensures |Run(sys, events).store.history| == |sys.store.history| + 1
  {
    NextInv(sys, Event.Expire);
    var rest := ClaimReadCommit(Next(sys, Event.Expire), machine);
    RunCons(sys, Event.Expire, rest);
    events := [Event.Expire] + rest;
  }

  lemma ClaimReadCommit(sys: System, machine: string) returns (events: seq<Event>)
    requires Inv(sys) && |ClaimSpec(sys.store, machine, 1).1| >= 1 && !sys.store.faults.failCommit
    requires forall j | 0 <= j < |sys.store.rows| :: sys.store.rows[j].record.event >= 0
    ensures |events| == 3 && PossibleRun(sys, events)
    ensures |Run(sys, events).store.history| == |sys.store.history| + 1
  {
    var e := Event.Claim(machine, 1);
    NextInv(sys, e);
    ClaimedWorker(sys, machine);
    var rest := ReadThenCommit(Next(sys, e), |sys.workers|);
    RunCons(sys, e, rest);
    events := [e] + rest;
  }

  lemma RunCons(sys: System, e: Event, events: seq<Event>)
    requires Possible(sys, e) && PossibleRun(Next(sys, e), events)
    ensures PossibleRun(sys, [e] + events) && Run(sys, [e] + events) == Run(Next(sys, e), events)
  {
    assert ([e] + events)[1..] == events;
  }

  lemma ReadThenCommit(sys: System, n: nat) returns (events: seq<Event>)
    requires Inv(sys) && n < |sys.workers| && Owns(sys.store.rows[sys.workers[n].work.id - 1], sys.workers[n].token)
    requires sys.workers[n].work.event >= 0 && !sys.store.faults.failCommit
    ensures |events| == 2 && PossibleRun(sys, events)
    ensures |Run(sys, events).store.history| == |sys.store.history| + 1
  {
    OwnerCommits(sys.store, sys.workers[n]);
    var sys1 := Next(sys, Event.Read(n));
    RunCons(sys1, Event.Commit(n), []);
    RunCons(sys, Event.Read(n), [Event.Commit(n)] + []);
    events := [Event.Read(n)] + ([Event.Commit(n)] + []);
  }

  /** The first command handed out is owned by the worker that gets it. */
  lemma ClaimedWorker(sys: System, machine: string)
    requires Numbered(sys.store.rows) && |ClaimSpec(sys.store, machine, 1).1| >= 1
    requires forall j | 0 <= j < |sys.store.rows| :: sys.store.rows[j].record.event >= 0
    ensures
      var sys1 := Next(sys, Event.Claim(machine, 1));
      && sys1.store.history == sys.store.history && sys1.store.faults == sys.store.faults
      && |sys1.workers| > |sys.workers|
      && (var w := sys1.workers[|sys.workers|];
          && 1 <= w.work.id <= |sys1.store.rows| && w.work.event >= 0
          && Owns(sys1.store.rows[w.work.id - 1], w.token))
  {
    var s := sys.store;
    ClaimHandsOut(s, machine, 1);
    var indices := ToLease(s.rows, machine, 1);
    var (s1, leased) := ClaimSpec(s, machine, 1);
    assert HandedOut(s, s1, indices[0], 0, leased[0]);
    assert Next(sys, Event.Claim(machine, 1)).workers == sys.workers + NewWorkers(leased);
  }

  // ---------------------------------------------------------------- giving a command back

  /** One row changed, in what the call is for, and nothing else of the store. */
  predicate OnlyRow(s: Store, s1: Store, i: nat, row: RowValue) {
    && i < |s.rows| == |s1.rows| && s1 == s.(rows := s1.rows) && s1.rows[i] == row
    && forall j | 0 <= j < |s.rows| && j != i :: s1.rows[j] == s.rows[j]
  }

  /** Rescheduling, rejecting and dead-lettering are the owner's: for it the row becomes ready with one attempt more, or
      final, keeping its command and token; for anyone else, and for an unknown command, nothing changes. */
  lemma GivenBack(s: Store, i: nat, lease: int)
    requires Numbered(s.rows) && i < |s.rows|
    ensures
      var row := s.rows[i];
      var (s1, retry) := RescheduleSpec(s, i + 1, lease);
      var (s2, reject) := FinishSpec(s, i + 1, lease, Status.Rejected);
      var (s3, dead) := FinishSpec(s, i + 1, lease, DeadLettered);
      var finalized := Ok(Finalized(SnapshotOf(s.snapshots, row.record.entity).epoch));
      if row.record.status == Leased && row.token == lease then
        && retry == Ok(Updated) && reject == finalized && dead == finalized
        && OnlyRow(s, s1, i, row.(record := row.record.(status := Ready, attempts := row.record.attempts + 1)))
        && OnlyRow(s, s2, i, row.(record := row.record.(status := Status.Rejected)))
        && OnlyRow(s, s3, i, row.(record := row.record.(status := DeadLettered)))
      else
        s1 == s && s2 == s && s3 == s && retry == Ok(Lost) && reject == Ok(LeaseLost) && dead == Ok(LeaseLost)
  {
    RowOfId(s.rows, i);
  }

  /** A command that was never submitted is an exception, and changes nothing. */
  lemma UnknownCommand(s: Store, id: int, lease: int, expected: nat, draft: Draft, status: Status)
    requires Numbered(s.rows) && !(1 <= id <= |s.rows|)
    ensures RescheduleSpec(s, id, lease) == (s, Missing) && FinishSpec(s, id, lease, status) == (s, Missing)
    ensures CommitSpec(s, id, lease, expected, draft) == (s, Missing)
  {
  }

  /** The worker's commit is written. */
  predicate Writes(s: Store, w: Worker)
    requires w.read.Some?
  {
    |CommitBy(s, w).0.history| > |s.history|
  }

  lemma WrittenRow(sys: System, k: nat)
    requires Inv(sys) && Possible(sys, Event.Commit(k)) && Writes(sys.store, sys.workers[k])
    ensures
      var w, rows := sys.workers[k], CommitBy(sys.store, sys.workers[k]).0.rows;
      && 1 <= w.work.id <= |rows|
      && rows[w.work.id - 1].record.status == Succeeded && rows[w.work.id - 1].token == w.token
  {
    CommitCases(sys.store, sys.workers[k]);
  }

  /** A retry after an ambiguous answer is idempotent: once a worker's commit is written, even if the response was lost,
      committing the same again, after whatever else has happened, says AlreadyFinalized and changes nothing. */
  lemma RetryIsIdempotent(sys: System, k: nat, events: seq<Event>)
    requires Inv(sys) && Possible(sys, Event.Commit(k)) && Writes(sys.store, sys.workers[k])
    requires PossibleRun(Next(sys, Event.Commit(k)), events)
    ensures
      var later := Run(Next(sys, Event.Commit(k)), events).store;
      var (after, answer) := CommitBy(later, sys.workers[k]);
      after == later && answer.Ok? && answer.value.AlreadyFinalized?
  {
    var w, sys1 := sys.workers[k], Next(sys, Event.Commit(k));
    var i := w.work.id - 1;
    WrittenRow(sys, k);
    NextInv(sys, Event.Commit(k));
    FinalForEver(sys1, events, i);
    InvAlways(sys1, events);
    RowOfId(Run(sys1, events).store.rows, i);
  }

  // ---------------------------------------------------------------- actions

  function Keys(actions: seq<LeasedAction>): set<Key> {
    set a | a in actions :: KeyOf(a.work)
  }

  lemma KeysGrow(actions: seq<LeasedAction>)
    requires |actions| > 0
    ensures Keys(actions) == Keys(actions[..|actions| - 1]) + {KeyOf(actions[|actions| - 1].work)}
  {
    assert actions == actions[..|actions| - 1] + [actions[|actions| - 1]];
  }

  lemma {:induction false} LeaseActionsKeys(s: Store, actions: seq<LeasedAction>)
    ensures LeaseActions(s, actions).0.active == s.active + Keys(actions)
  {
    if |actions| > 0 {
      LeaseActionsKeys(s, actions[..|actions| - 1]);
      KeysGrow(actions);
    }
  }

  lemma {:induction false} LeaseActionsTokens(s: Store, actions: seq<LeasedAction>)
    ensures
      var leased := LeaseActions(s, actions).1;
      |leased| == |actions| &&
      forall k | 0 <= k < |actions| ::
          leased[k] == LeasedAction(actions[k].work, s.token + 1 + k, actions[k].deliveries + 1)
  {
    if |actions| > 0 {
      LeaseActionsTokens(s, actions[..|actions| - 1]);
    }
  }

  lemma {:induction false} AvailableDistinct(pending: seq<LeasedAction>, active: set<Key>)
    requires KeysDistinct(pending)
    ensures KeysDistinct(Available(pending, active))
  {
    if |pending| > 0 {
      RestDistinct(pending);
      AvailableDistinct(pending[1..], active);
      var rest := Available(pending[1..], active);
      forall k | 0 <= k < |rest|
        ensures KeyOf(rest[k].work) != KeyOf(pending[0].work)
      {
        assert rest[k] in rest;
      }
    }
  }

  /** Leases of actions are exclusive: a claim hands out pending actions that no one has leased, each once and with a
      token of its own, and they are leased afterwards; nothing else changes. */
  lemma ActionLeasesExclusive(s: Store, batch: int)
    requires KeysDistinct(s.pending)
    ensures
      var (s1, leased) := ClaimActionsSpec(s, batch);
      && (forall k | 0 <= k < |leased| ::
            KeyOf(leased[k].work) !in s.active && IsPending(s, KeyOf(leased[k].work)) &&
              leased[k].token == s.token + 1 + k)
      && (forall a, b | 0 <= a < b < |leased| :: KeyOf(leased[a].work) != KeyOf(leased[b].work))
      && (forall k | 0 <= k < |leased| :: KeyOf(leased[k].work) in s1.active)
      && s.active <= s1.active && s1 == s.(token := s.token + |leased|, active := s1.active)
  {
    var available := Available(s.pending, s.active);
    var chosen := Truncate(available, batch);
    AvailableDistinct(s.pending, s.active);
    LeaseActionsKeys(s, chosen);
    LeaseActionsTokens(s, chosen);
    forall k | 0 <= k < |chosen|
      ensures KeyOf(chosen[k].work) !in s.active && IsPending(s, KeyOf(chosen[k].work))
      ensures KeyOf(chosen[k].work) in Keys(chosen)
    {
      assert chosen[k] == available[k] && chosen[k] in available && chosen[k] in chosen;
    }
  }

  /** A claim of actions leaves an available one behind only when the batch is full. */
  lemma {:induction false} ActionsLeftBehind(s: Store, batch: int, a: LeasedAction)
    requires a in s.pending && KeyOf(a.work) !in s.active
    ensures
      var leased := ClaimActionsSpec(s, batch).1;
      && |leased| <= (if batch < 0 then 0 else batch)
      && (|leased| >= batch || exists k :: 0 <= k < |leased| && leased[k].work == a.work)
  {
    var available := Available(s.pending, s.active);
    var chosen := Truncate(available, batch);
    var leased := ClaimActionsSpec(s, batch).1;
    LeaseActionsTokens(s, chosen);
    assert a in available;
    if |leased| < batch {
      assert chosen == available;
      var k :| 0 <= k < |available| && available[k] == a;
      assert leased[k].work == a.work;
    }
  }

  /** The positions of the pending actions that no one has leased. */
  function Free(pending: seq<LeasedAction>, active: set<Key>): (r: seq<nat>)
    ensures forall i :: i in r <==> 0 <= i < |pending| && KeyOf(pending[i].work) !in active
    ensures Increasing(r)
  {
    if |pending| == 0 then []
    else
      var last := |pending| - 1;
      var before := Free(pending[..last], active);
      assert forall k | 0 <= k < |before| :: before[k] in before;
      if KeyOf(pending[last].work) in active then before else before + [last]
  }

  lemma {:induction false} AvailableAppend(pending: seq<LeasedAction>, a: LeasedAction, active: set<Key>)
    ensures Available(pending + [a], active) ==
      Available(pending, active) + if KeyOf(a.work) !in active then [a] else []
  {
    if |pending| == 0 {
      assert ([] + [a])[1..] == [];
    } else {
      assert (pending + [a])[1..] == pending[1..] + [a] && (pending + [a])[0] == pending[0];
      AvailableAppend(pending[1..], a, active);
    }
  }

  /** The list has at the place what the other has at the position listed for it. */
  predicate Picked(xs: seq<LeasedAction>, pending: seq<LeasedAction>, positions: seq<nat>, k: nat)
    requires k < |xs| && k < |positions|
  {
    positions[k] < |pending| && xs[k] == pending[positions[k]]
  }

  predicate AllPicked(xs: seq<LeasedAction>, pending: seq<LeasedAction>, positions: seq<nat>) {
    |xs| == |positions| && forall k | 0 <= k < |xs| :: Picked(xs, pending, positions, k)
  }

  lemma PickedMore(
      xs: seq<LeasedAction>, pending: seq<LeasedAction>, positions: seq<nat>, a: LeasedAction, taken: bool)
    requires AllPicked(xs, pending, positions)
    ensures AllPicked(xs + (if taken then [a] else []), pending + [a],
                      positions + if taken then [|pending|] else [])
  {
    forall k | 0 <= k < |xs|
      ensures Picked(xs, pending + [a], positions, k)
      ensures Picked(xs + [a], pending + [a], positions + [|pending|], k)
    {
      assert Picked(xs, pending, positions, k);
    }
    assert xs + [] == xs && positions + [] == positions;
  }

  lemma FreeAppend(pending: seq<LeasedAction>, a: LeasedAction, active: set<Key>)
    ensures Free(pending + [a], active) ==
      Free(pending, active) + if KeyOf(a.work) !in active then [|pending|] else []
  {
    assert (pending + [a])[..|pending|] == pending;
  }

  lemma {:induction false} AvailableIsFree(pending: seq<LeasedAction>, active: set<Key>)
    ensures AllPicked(Available(pending, active), pending, Free(pending, active))
  {
    if |pending| > 0 {
      var before, last := pending[..|pending| - 1], pending[|pending| - 1];
      assert pending == before + [last];
      AvailableIsFree(before, active);
      AvailableAppend(before, last, active);
      FreeAppend(before, last, active);
      PickedMore(Available(before, active), before, Free(before, active), last, KeyOf(last.work) !in active);
    }
  }

  /** A claim of actions hands out the first pending ones that no one has leased, in the order in which they became
      pending, as many as the batch allows. */
  lemma ActionsInOrder(s: Store, batch: int)
    ensures
      var free, leased := Free(s.pending, s.active), ClaimActionsSpec(s, batch).1;
      && |leased| <= |free| && |leased| <= (if batch < 0 then 0 else batch)
      && (|leased| < |free| ==> |leased| >= batch)
      && forall k | 0 <= k < |leased| :: free[k] < |s.pending| && leased[k].work == s.pending[free[k]].work
  {
    AvailableIsFree(s.pending, s.active);
    var available, free := Available(s.pending, s.active), Free(s.pending, s.active);
    var chosen := Truncate(available, batch);
    TruncatedPrefix(available, batch);
    LeaseActionsTokens(s, chosen);
    forall k | 0 <= k < |chosen|
      ensures free[k] < |s.pending| && ClaimActionsSpec(s, batch).1[k].work == s.pending[free[k]].work
    {
      assert Picked(available, s.pending, free, k) && chosen[k] == available[k];
    }
  }

  /** The action is handed out by a claim with a batch of its size. */
  predicate HandsOut(s: Store, action: Action) {
    var leased := ClaimActionsSpec(s, |s.pending| + 1).1;
    exists k :: 0 <= k < |leased| && leased[k].work == action
  }

  lemma {:induction false} AvailableCount(pending: seq<LeasedAction>, active: set<Key>)
    ensures |Available(pending, active)| <= |pending|
  {
    if |pending| > 0 {
      AvailableCount(pending[1..], active);
    }
  }

  lemma FreeIsHandedOut(s: Store, a: LeasedAction)
    requires a in s.pending && KeyOf(a.work) !in s.active
    ensures HandsOut(s, a.work)
  {
    AvailableCount(s.pending, s.active);
    ActionsLeftBehind(s, |s.pending| + 1, a);
    LeaseActionsTokens(s, Truncate(Available(s.pending, s.active), |s.pending| + 1));
  }

  /** A pending action whose lease expires, whose acknowledgment is lost or which is rescheduled is handed out again;
      one that is acknowledged or abandoned is not. */
  lemma ActionsComeBack(s: Store, a: LeasedAction)
    requires a in s.pending
    ensures HandsOut(ExpireSpec(s), a.work)
    ensures HandsOut(RescheduleActionSpec(s, a.work), a.work)
    ensures CompleteSpec(s, a.work).1 == if s.faults.loseAck then Unavailable else Ok(Updated)
    ensures HandsOut(CompleteSpec(s, a.work).0, a.work) <==> s.faults.loseAck
    ensures !HandsOut(AbandonSpec(s, a.work), a.work)
    ensures !CompleteSpec(s, a.work).0.faults.loseAck
  {
    FreeIsHandedOut(ExpireSpec(s), a);
    FreeIsHandedOut(RescheduleActionSpec(s, a.work), a);
    if s.faults.loseAck {
      FreeIsHandedOut(CompleteSpec(s, a.work).0, a);
    } else {
      GoneIsNotHandedOut(CompleteSpec(s, a.work).0, a.work);
    }
    GoneIsNotHandedOut(AbandonSpec(s, a.work), a.work);
  }

  lemma GoneIsNotHandedOut(s: Store, action: Action)
    requires !IsPending(s, KeyOf(action))
    ensures !HandsOut(s, action)
  {
    var chosen := Truncate(Available(s.pending, s.active), |s.pending| + 1);
    LeaseActionsTokens(s, chosen);
    forall k | 0 <= k < |chosen|
      ensures chosen[k].work != action
    {
      assert chosen[k] == Available(s.pending, s.active)[k] && chosen[k] in Available(s.pending, s.active);
    }
  }
}
