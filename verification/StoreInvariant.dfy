/** Every step of every interleaving keeps the store's invariant. */
module StoreInvariant {
  import opened Text
  import opened StoreSpec
  import opened StoreSystem

  /** The part of the invariant about commands and workers. */
  ghost predicate Sound(s: Store, workers: seq<Worker>) {
    && Identified(s.rows) && InOrder(s.rows) && TokensBelow(s.rows, s.token) && 0 <= s.token
    && Books(s) && WorkersFit(s, workers)
  }

  // ---------------------------------------------------------------- sums over rows

  lemma {:induction false} SumSame(rows: seq<RowValue>, rows1: seq<RowValue>, entity: string)
    requires SameCommands(rows, rows1)
    requires forall i | 0 <= i < |rows| :: rows[i].record.status == Succeeded <==> rows1[i].record.status == Succeeded
    ensures SumSucceeded(rows, entity) == SumSucceeded(rows1, entity)
    ensures CountSucceeded(rows, entity) == CountSucceeded(rows1, entity)
  {
    if |rows| > 0 {
      var last := |rows| - 1;
      forall i | 0 <= i < last
        ensures SameCommand(rows[..last][i].record, rows1[..last][i].record)
        ensures rows[..last][i].record.status == Succeeded <==> rows1[..last][i].record.status == Succeeded
      {
        assert SameCommand(rows[i].record, rows1[i].record);
      }
      assert SameCommand(rows[last].record, rows1[last].record);
      SumSame(rows[..last], rows1[..last], entity);
    }
  }

  lemma {:induction false} SumSucceeds(rows: seq<RowValue>, i: nat, row: RowValue, entity: string)
    requires i < |rows| && SameCommand(rows[i].record, row.record)
    requires rows[i].record.status != Succeeded && row.record.status == Succeeded
    ensures
      var counts := rows[i].record.entity == entity;
      && SumSucceeded(rows[i := row], entity) == SumSucceeded(rows, entity) + (if counts then row.record.event else 0)
      && CountSucceeded(rows[i := row], entity) == CountSucceeded(rows, entity) + (if counts then 1 else 0)
  {
    var last := |rows| - 1;
    if i == last {
      assert rows[i := row][..last] == rows[..last];
    } else {
      SumSucceeds(rows[..last], i, row, entity);
      assert rows[i := row][..last] == rows[..last][i := row];
    }
  }

  // ---------------------------------------------------------------- books

  lemma RecordedKept(rows: seq<RowValue>, rows1: seq<RowValue>, history: seq<Transition>)
    requires Recorded(rows, history) && SameCommands(rows, rows1)
    requires forall i | 0 <= i < |rows| :: rows[i].record.status == Succeeded <==> rows1[i].record.status == Succeeded
    ensures Recorded(rows1, history)
  {
    forall p | 0 <= p < |history|
      ensures Linked(rows1, history[p])
    {
      assert Linked(rows, history[p]);
      var i := history[p].commandId - 1;
      assert SameCommand(rows[i].record, rows1[i].record);
    }
    forall id | HasSucceeded(rows1, id)
      ensures InHistory(history, id)
    {
      assert HasSucceeded(rows, id);
    }
  }

  lemma BooksKept(s: Store, s1: Store)
    requires Books(s) && s1.history == s.history && s1.snapshots == s.snapshots && SameCommands(s.rows, s1.rows)
    requires forall i | 0 <= i < |s.rows| ::
        s.rows[i].record.status == Succeeded <==> s1.rows[i].record.status == Succeeded
    ensures Books(s1)
  {
    RecordedKept(s.rows, s1.rows, s.history);
    forall entity
      ensures EntityBooks(s1, entity)
    {
      assert EntityBooks(s, entity);
      SumSame(s.rows, s1.rows, entity);
    }
  }

  // ---------------------------------------------------------------- one row

  lemma ReplacedSame(rows: seq<RowValue>, i: nat, row: RowValue)
    requires i < |rows| && SameCommand(rows[i].record, row.record)
    ensures SameCommands(rows, rows[i := row])
  {
  }

  /** Leaving the lease, for Ready or a final status. */
  lemma LeftOrder(rows: seq<RowValue>, i: nat, row: RowValue)
    requires InOrder(rows) && i < |rows| && rows[i].record.status == Leased
    requires row.record.entity == rows[i].record.entity && row.record.status != Leased
    ensures InOrder(rows[i := row])
  {
    var rows1 := rows[i := row];
    forall a, b |
      0 <= a < b < |rows1| && rows1[a].record.entity == rows1[b].record.entity && rows1[b].record.status != Ready
      ensures Final(rows1[a].record.status)
    {
      assert rows[a].record.entity == rows[b].record.entity && rows[b].record.status != Ready;
      assert Final(rows[a].record.status);
    }
  }

  lemma LeftTokens(rows: seq<RowValue>, token: int, i: nat, row: RowValue)
    requires TokensBelow(rows, token) && i < |rows| && row.token == rows[i].token && row.record.status != Leased
    ensures TokensBelow(rows[i := row], token)
  {
  }

  /** A leased row is given back, rejected or dead-lettered. */
  lemma UnleaseKeeps(s: Store, workers: seq<Worker>, i: nat, row: RowValue)
    requires Sound(s, workers) && i < |s.rows| && s.rows[i].record.status == Leased
    requires SameCommand(s.rows[i].record, row.record) && row.token == s.rows[i].token
    requires row.record.status != Leased && row.record.status != Succeeded
    ensures Sound(s.(rows := s.rows[i := row]), workers)
  {
    var s1 := s.(rows := s.rows[i := row]);
    ReplacedSame(s.rows, i, row);
    IdentifiedKept(s.rows, s1.rows);
    LeftOrder(s.rows, i, row);
    LeftTokens(s.rows, s.token, i, row);
    BooksKept(s, s1);
    UnleaseWorkers(s, workers, i, row);
  }

  lemma UnleaseWorkers(s: Store, workers: seq<Worker>, i: nat, row: RowValue)
    requires WorkersFit(s, workers) && i < |s.rows|
    requires SameCommand(s.rows[i].record, row.record) && row.record.status != Leased
    ensures WorkersFit(s.(rows := s.rows[i := row]), workers)
  {
    forall k | 0 <= k < |workers|
      ensures WorkerFits(s.(rows := s.rows[i := row]), workers[k])
    {
      assert WorkerFits(s, workers[k]);
    }
  }

  lemma LeaseOrder(rows: seq<RowValue>, i: nat, row: RowValue)
    requires InOrder(rows) && i < |rows| && Leasable(rows, i) && row.record.entity == rows[i].record.entity
    ensures InOrder(rows[i := row])
  {
    var rows1 := rows[i := row];
    forall a, b |
      0 <= a < b < |rows1| && rows1[a].record.entity == rows1[b].record.entity && rows1[b].record.status != Ready
      ensures Final(rows1[a].record.status)
    {
      assert rows[a].record.entity == rows[b].record.entity;
      assert Final(rows[a].record.status);
      assert a != i;
    }
  }

  lemma LeaseTokens(rows: seq<RowValue>, token: int, i: nat, row: RowValue)
    requires TokensBelow(rows, token) && 0 <= token && i < |rows| && row.token == token + 1
    ensures TokensBelow(rows[i := row], token + 1)
  {
  }

  lemma LeaseRowsKeep(s: Store, i: nat)
    requires Identified(s.rows) && InOrder(s.rows) && TokensBelow(s.rows, s.token) && 0 <= s.token
    requires i < |s.rows| && Leasable(s.rows, i)
    ensures var s1 := Lease(s, i);
      Identified(s1.rows) && InOrder(s1.rows) && TokensBelow(s1.rows, s1.token) && SameCommands(s.rows, s1.rows)
  {
    var s1 := Lease(s, i);
    ReplacedSame(s.rows, i, s1.rows[i]);
    IdentifiedKept(s.rows, s1.rows);
    LeaseOrder(s.rows, i, s1.rows[i]);
    LeaseTokens(s.rows, s.token, i, s1.rows[i]);
  }

  lemma LeaseWorkers(s: Store, workers: seq<Worker>, i: nat)
    requires WorkersFit(s, workers) && i < |s.rows|
    ensures WorkersFit(Lease(s, i), workers)
  {
    forall k | 0 <= k < |workers|
      ensures WorkerFits(Lease(s, i), workers[k])
    {
      assert WorkerFits(s, workers[k]);
    }
  }

  /** A leasable row is leased with a fresh token. */
  lemma LeaseKeeps(s: Store, workers: seq<Worker>, i: nat)
    requires Sound(s, workers) && i < |s.rows| && Leasable(s.rows, i)
    ensures Sound(Lease(s, i), workers) && SameCommands(s.rows, Lease(s, i).rows)
  {
    LeaseRowsKeep(s, i);
    BooksKept(s, Lease(s, i));
    LeaseWorkers(s, workers, i);
  }

  /** A leased row's new worker fits. */
  lemma NewWorkerFits(s: Store, i: nat)
    requires Identified(s.rows) && 0 <= s.token && i < |s.rows|
    ensures var s1 := Lease(s, i); WorkerFits(s1, Worker(s1.rows[i].record, s1.token, None))
  {
    assert s.rows[i].record.id == i + 1;
  }

  lemma MoreWorkers(s: Store, workers: seq<Worker>, w: Worker)
    requires Sound(s, workers) && WorkerFits(s, w)
    ensures Sound(s, workers + [w])
  {
  }

  // ---------------------------------------------------------------- claim

  /** The rows still to be leased: distinct, and each leasable. */
  predicate AllLeasable(rows: seq<RowValue>, indices: seq<nat>) {
    && (forall k | 0 <= k < |indices| :: indices[k] < |rows| && Leasable(rows, indices[k]))
    && (forall a, b | 0 <= a < b < |indices| :: indices[a] < indices[b])
  }

  /** Leasing some rows leaves the others as they were. */
  lemma {:induction false} LeaseAllRows(s: Store, indices: seq<nat>)
    requires forall k | 0 <= k < |indices| :: indices[k] < |s.rows|
    ensures var s1 := LeaseAll(s, indices).0;
      && s.token <= s1.token && SameCommands(s.rows, s1.rows)
      && (forall i | 0 <= i < |s.rows| && i !in indices :: s1.rows[i] == s.rows[i])
    decreases |indices|
  {
    if |indices| > 0 {
      var n := |indices| - 1;
      LeaseAllRows(s, indices[..n]);
      var s1 := LeaseAll(s, indices[..n]).0;
      ReplacedSame(s1.rows, indices[n], Lease(s1, indices[n]).rows[indices[n]]);
      SameCommandsTrans(s.rows, s1.rows, Lease(s1, indices[n]).rows);
    }
  }

  lemma NewWorkersGrow(workers: seq<Worker>, leased: seq<LeasedCommand>, work: LeasedCommand)
    ensures workers + NewWorkers(leased + [work]) ==
        workers + NewWorkers(leased) + [Worker(work.work, work.token, None)]
  {
  }

  lemma {:induction false} LeaseAllKeeps(s: Store, workers: seq<Worker>, indices: seq<nat>)
    requires Sound(s, workers) && AllLeasable(s.rows, indices)
    ensures var (s1, leased) := LeaseAll(s, indices); Sound(s1, workers + NewWorkers(leased))
    decreases |indices|
  {
    if |indices| == 0 {
      assert workers + NewWorkers([]) == workers;
    } else {
      var n := |indices| - 1;
      var before, i := indices[..n], indices[n];
      LeaseAllKeeps(s, workers, before);
      LeaseAllRows(s, before);
      var (s1, leased) := LeaseAll(s, before);
      StillLeasable(s.rows, s1.rows, indices);
      LeaseOneMore(s1, workers + NewWorkers(leased), i);
      var s2 := Lease(s1, i);
      NewWorkersGrow(workers, leased, LeasedCommand(s2.rows[i].record, s2.token, s2.rows[i].deliveries));
    }
  }

  lemma LeaseOneMore(s: Store, workers: seq<Worker>, i: nat)
    requires Sound(s, workers) && i < |s.rows| && Leasable(s.rows, i)
    ensures var s1 := Lease(s, i); Sound(s1, workers + [Worker(s1.rows[i].record, s1.token, None)])
  {
    LeaseKeeps(s, workers, i);
    NewWorkerFits(s, i);
    MoreWorkers(Lease(s, i), workers, Worker(Lease(s, i).rows[i].record, Lease(s, i).token, None));
  }

  lemma SameCommandsTrans(a: seq<RowValue>, b: seq<RowValue>, c: seq<RowValue>)
    requires SameCommands(a, b) && SameCommands(b, c)
    ensures SameCommands(a, c)
  {
    forall i | 0 <= i < |a|
      ensures SameCommand(a[i].record, c[i].record)
    {
      assert SameCommand(a[i].record, b[i].record) && SameCommand(b[i].record, c[i].record);
    }
  }

  /** The predecessors of a leasable row are final, so they are not among the rows leased before it. */
  lemma StillLeasable(rows: seq<RowValue>, rows1: seq<RowValue>, indices: seq<nat>)
    requires |indices| > 0 && AllLeasable(rows, indices) && SameCommands(rows, rows1)
    requires forall i | 0 <= i < |rows| && i !in indices[..|indices| - 1] :: rows1[i] == rows[i]
    ensures Leasable(rows1, indices[|indices| - 1])
  {
    var i := indices[|indices| - 1];
    assert i !in indices[..|indices| - 1];
    forall j | 0 <= j < i && rows1[j].record.entity == rows1[i].record.entity
      ensures Final(rows1[j].record.status)
    {
      assert SameCommand(rows[j].record, rows1[j].record);
      assert Final(rows[j].record.status);
      assert j !in indices[..|indices| - 1];
    }
  }

  lemma ToLeaseIsLeasable(rows: seq<RowValue>, machine: string, batch: int)
    requires Identified(rows)
    ensures AllLeasable(rows, ToLease(rows, machine, batch))
  {
    var r := ToLease(rows, machine, batch);
    forall k | 0 <= k < |r|
      ensures r[k] < |rows| && Leasable(rows, r[k])
    {
      EligibleIsLeasable(rows, machine, r[k]);
    }
  }

  lemma ClaimKeeps(s: Store, workers: seq<Worker>, machine: string, batch: int)
    requires Sound(s, workers)
    ensures var (s1, leased) := ClaimSpec(s, machine, batch); Sound(s1, workers + NewWorkers(leased))
  {
    ToLeaseIsLeasable(s.rows, machine, batch);
    LeaseAllKeeps(s, workers, ToLease(s.rows, machine, batch));
  }

  // ---------------------------------------------------------------- submit

  lemma AppendIdentified(rows: seq<RowValue>, row: RowValue)
    requires Identified(rows) && row.record.id == |rows| + 1
    requires row.record.sequence == 1 + CountOf(rows, row.record.entity)
    requires forall i | 0 <= i < |rows| :: !HasKey(rows[i], row.record.entity, row.record.key)
    ensures Identified(rows + [row])
  {
    var rows1 := rows + [row];
    forall i | 0 <= i < |rows1|
      ensures rows1[i].record.id == i + 1
      ensures Sequenced(rows1, i)
    {
      assert i < |rows| ==> Sequenced(rows, i);
      assert rows1[..i] == rows[..i];
      assert rows[..|rows|] == rows;
    }
    forall i, j | 0 <= i < j < |rows1| && rows1[i].record.entity == rows1[j].record.entity
      ensures rows1[i].record.key != rows1[j].record.key
    {
      assert !HasKey(rows[i], row.record.entity, row.record.key);
    }
  }

  lemma AppendBooks(s: Store, row: RowValue)
    requires Books(s) && row.record.status == Ready
    ensures Books(s.(rows := s.rows + [row]))
  {
    var s1 := s.(rows := s.rows + [row]);
    forall p | 0 <= p < |s.history|
      ensures Linked(s1.rows, s.history[p])
    {
      assert Linked(s.rows, s.history[p]);
    }
    forall id | HasSucceeded(s1.rows, id)
      ensures InHistory(s.history, id)
    {
      assert HasSucceeded(s.rows, id);
    }
    forall entity
      ensures EntityBooks(s1, entity)
    {
      assert EntityBooks(s, entity);
      assert s1.rows[..|s.rows|] == s.rows;
    }
  }

  lemma AppendOrder(rows: seq<RowValue>, row: RowValue)
    requires InOrder(rows) && row.record.status == Ready
    ensures InOrder(rows + [row])
  {
    var rows1 := rows + [row];
    forall a, b |
      0 <= a < b < |rows1| && rows1[a].record.entity == rows1[b].record.entity && rows1[b].record.status != Ready
      ensures Final(rows1[a].record.status)
    {
      assert rows[a].record.entity == rows[b].record.entity && rows[b].record.status != Ready;
    }
  }

  lemma AppendTokens(rows: seq<RowValue>, row: RowValue, token: int)
    requires TokensBelow(rows, token) && 0 <= token && row.record.status == Ready && row.token == 0
    ensures TokensBelow(rows + [row], token)
  {
  }

  lemma AppendWorkers(s: Store, workers: seq<Worker>, row: RowValue)
    requires WorkersFit(s, workers)
    ensures WorkersFit(s.(rows := s.rows + [row]), workers)
  {
    forall k | 0 <= k < |workers|
      ensures WorkerFits(s.(rows := s.rows + [row]), workers[k])
    {
      assert WorkerFits(s, workers[k]);
    }
  }

  lemma SubmitKeeps(s: Store, workers: seq<Worker>, machine: string, entity: string, key: string, event: int)
    requires Sound(s, workers)
    ensures Sound(SubmitSpec(s, machine, entity, key, event).0, workers)
  {
    if FindKey(s.rows, entity, key).None? {
      var row := SubmitSpec(s, machine, entity, key, event).0.rows[|s.rows|];
      AppendIdentified(s.rows, row);
      AppendOrder(s.rows, row);
      AppendTokens(s.rows, row, s.token);
      AppendBooks(s, row);
      AppendWorkers(s, workers, row);
    }
  }

  // ---------------------------------------------------------------- expire

  lemma ExpireOrder(rows: seq<RowValue>)
    requires InOrder(rows)
    ensures InOrder(ExpiredRows(rows))
  {
    var rows1 := ExpiredRows(rows);
    forall a, b |
      0 <= a < b < |rows1| && rows1[a].record.entity == rows1[b].record.entity && rows1[b].record.status != Ready
      ensures Final(rows1[a].record.status)
    {
      assert rows[a].record.entity == rows[b].record.entity && rows[b].record.status != Ready;
      assert Final(rows[a].record.status);
    }
  }

  lemma ExpireTokens(rows: seq<RowValue>, token: int)
    requires TokensBelow(rows, token)
    ensures TokensBelow(ExpiredRows(rows), token)
  {
    var rows1 := ExpiredRows(rows);
    assert forall i | 0 <= i < |rows| :: rows1[i].token == rows[i].token;
  }

  lemma ExpireWorkers(s: Store, workers: seq<Worker>)
    requires WorkersFit(s, workers)
    ensures WorkersFit(ExpireSpec(s), workers)
  {
    forall k | 0 <= k < |workers|
      ensures WorkerFits(ExpireSpec(s), workers[k])
    {
      assert WorkerFits(s, workers[k]);
    }
  }

  lemma ExpireKeeps(s: Store, workers: seq<Worker>)
    requires Sound(s, workers)
    ensures Sound(ExpireSpec(s), workers)
  {
    var s1 := ExpireSpec(s);
    assert SameCommands(s.rows, s1.rows);
    IdentifiedKept(s.rows, s1.rows);
    ExpireOrder(s.rows);
    ExpireTokens(s.rows, s.token);
    BooksKept(s, s1);
    ExpireWorkers(s, workers);
  }

  // ---------------------------------------------------------------- commit

  /** At most one command of an entity is leased. */
  lemma OneLeased(rows: seq<RowValue>, i: nat, j: nat)
    requires InOrder(rows) && i < |rows| && j < |rows| && rows[i].record.entity == rows[j].record.entity
    requires rows[i].record.status == Leased && rows[j].record.status == Leased
    ensures i == j
  {
  }

  lemma CommitRecorded(rows: seq<RowValue>, history: seq<Transition>, i: nat, row: RowValue, t: Transition)
    requires Recorded(rows, history) && InOrder(rows) && i < |rows| && rows[i].record.status == Leased
    requires SameCommand(rows[i].record, row.record) && row.record.status == Succeeded
    requires t.commandId == i + 1 && Linked(rows[i := row], t)
    ensures Recorded(rows[i := row], history + [t])
  {
    var rows1, history1 := rows[i := row], history + [t];
    forall p | 0 <= p < |history1|
      ensures Linked(rows1, history1[p])
    {
      if p < |history| {
        assert Linked(rows, history[p]);
      }
    }
    forall p | 0 <= p < |history|
      ensures history[p].commandId != i + 1
      ensures history[p].draft.entity == t.draft.entity ==> history[p].commandId < i + 1
    {
      assert Linked(rows, history[p]);
    }
    forall id | HasSucceeded(rows1, id)
      ensures InHistory(history1, id)
    {
      if id == i + 1 {
        assert history1[|history|].commandId == id;
      } else {
        assert HasSucceeded(rows, id);
        var p :| 0 <= p < |history| && history[p].commandId == id;
        assert history1[p].commandId == id;
      }
    }
  }

  lemma ChainGrows(h: seq<Transition>, snapshot: Snapshot, t: Transition)
    requires Chain(h, snapshot) && t.epoch == snapshot.epoch + 1 && t.draft.fromState == snapshot.state
    ensures Chain(h + [t], Snapshot(t.draft.toState, t.epoch))
  {
    var h1 := h + [t];
    forall k | 0 <= k < |h1|
      ensures h1[k].epoch == k + 1 && StartsThere(h1, k)
    {
      assert StateBefore(h1, k) == StateBefore(h, k);
      if k < |h| {
        assert h1[k] == h[k] && StartsThere(h, k);
      }
    }
  }

  lemma WrapSum(state: int, sum: int, sum1: int, event: int, toState: int)
    requires state == Wrap32(sum) && toState == Wrap32(state + event) && sum1 == sum + event
    ensures toState == Wrap32(sum1)
  {
    WrapAdd(sum, event);
  }

  /** The history of the transition's own entity gets the transition, that of another nothing. */
  lemma HistoryGrows(history: seq<Transition>, t: Transition, entity: string)
    ensures
      var h := HistoryOf(history, entity);
      HistoryOf(history + [t], entity) == if t.draft.entity == entity then h + [t] else h
  {
    assert (history + [t])[..|history|] == history;
  }

  lemma CommitOwnChain(history: seq<Transition>, snapshot: Snapshot, t: Transition)
    requires Chain(HistoryOf(history, t.draft.entity), snapshot)
    requires t.epoch == snapshot.epoch + 1 && t.draft.fromState == snapshot.state
    ensures Chain(HistoryOf(history + [t], t.draft.entity), Snapshot(t.draft.toState, t.epoch))
  {
    var h := HistoryOf(history, t.draft.entity);
    HistoryGrows(history, t, t.draft.entity);
    ChainGrows(h, snapshot, t);
  }

  lemma CommitOwnBooks(s: Store, i: nat, lease: int, draft: Draft)
    requires EntityBooks(s, draft.entity) && i < |s.rows| && s.rows[i].record.status == Leased
    requires draft.entity == s.rows[i].record.entity
    requires draft.fromState == SnapshotOf(s.snapshots, draft.entity).state
    requires draft.toState == Wrap32(draft.fromState + s.rows[i].record.event)
    ensures EntityBooks(Committed(s, i, i + 1, lease, draft), draft.entity)
  {
    var s1 := Committed(s, i, i + 1, lease, draft);
    CommitOwnChain(s.history, SnapshotOf(s.snapshots, draft.entity), s1.history[|s.history|]);
    SumSucceeds(s.rows, i, s1.rows[i], draft.entity);
    WrapSum(draft.fromState, SumSucceeded(s.rows, draft.entity), SumSucceeded(s1.rows, draft.entity),
            s.rows[i].record.event, draft.toState);
  }

  lemma CommitOthersBooks(s: Store, i: nat, lease: int, draft: Draft, entity: string)
    requires EntityBooks(s, entity) && i < |s.rows| && s.rows[i].record.status == Leased
    requires draft.entity == s.rows[i].record.entity && entity != draft.entity
    ensures EntityBooks(Committed(s, i, i + 1, lease, draft), entity)
  {
    var s1 := Committed(s, i, i + 1, lease, draft);
    HistoryGrows(s.history, s1.history[|s.history|], entity);
    SumSucceeds(s.rows, i, s1.rows[i], entity);
  }

  lemma CommitBooks(s: Store, i: nat, lease: int, draft: Draft)
    requires Books(s) && InOrder(s.rows) && i < |s.rows| && s.rows[i].record.status == Leased
    requires draft.entity == s.rows[i].record.entity && draft.machine == s.rows[i].record.machine
    requires draft.fromState == SnapshotOf(s.snapshots, draft.entity).state && draft.actions == [EFFECT]
    requires draft.toState == Wrap32(draft.fromState + s.rows[i].record.event)
    ensures Books(Committed(s, i, i + 1, lease, draft))
  {
    var s1 := Committed(s, i, i + 1, lease, draft);
    CommitRecorded(s.rows, s.history, i, s1.rows[i], s1.history[|s.history|]);
    forall entity
      ensures EntityBooks(s1, entity)
    {
      assert EntityBooks(s, entity);
      if entity == draft.entity {
        CommitOwnBooks(s, i, lease, draft);
      } else {
        CommitOthersBooks(s, i, lease, draft, entity);
      }
    }
  }

  lemma CommitRowsKeep(s: Store, i: nat, draft: Draft)
    requires Identified(s.rows) && InOrder(s.rows) && TokensBelow(s.rows, s.token)
    requires i < |s.rows| && s.rows[i].record.status == Leased
    ensures
      var s1 := Committed(s, i, i + 1, s.rows[i].token, draft);
      Identified(s1.rows) && InOrder(s1.rows) && TokensBelow(s1.rows, s1.token)
  {
    var s1 := Committed(s, i, i + 1, s.rows[i].token, draft);
    ReplacedSame(s.rows, i, s1.rows[i]);
    IdentifiedKept(s.rows, s1.rows);
    LeftOrder(s.rows, i, s1.rows[i]);
    LeftTokens(s.rows, s.token, i, s1.rows[i]);
  }

  lemma CommitWorkers(s: Store, workers: seq<Worker>, i: nat, draft: Draft)
    requires InOrder(s.rows) && WorkersFit(s, workers) && i < |s.rows| && s.rows[i].record.status == Leased
    requires draft.entity == s.rows[i].record.entity
    ensures WorkersFit(Committed(s, i, i + 1, s.rows[i].token, draft), workers)
  {
    var s1 := Committed(s, i, i + 1, s.rows[i].token, draft);
    forall k | 0 <= k < |workers|
      ensures WorkerFits(s1, workers[k])
    {
      var w := workers[k];
      assert WorkerFits(s, w);
      var j := w.work.id - 1;
      if Owns(s1.rows[j], w.token) && w.work.entity == draft.entity {
        OneLeased(s.rows, i, j);
      }
    }
  }

  /** A commit that writes, by the worker whose draft it is. */
  lemma FinalizeKeeps(s: Store, workers: seq<Worker>, k: nat)
    requires Sound(s, workers) && k < |workers| && workers[k].read.Some?
    requires Owns(s.rows[workers[k].work.id - 1], workers[k].token)
    ensures Sound(
        Committed(s, workers[k].work.id - 1, workers[k].work.id, workers[k].token, workers[k].read.value.1), workers)
  {
    var w := workers[k];
    assert WorkerFits(s, w);
    var i := w.work.id - 1;
    CommitRowsKeep(s, i, w.read.value.1);
    CommitBooks(s, i, w.token, w.read.value.1);
    CommitWorkers(s, workers, i, w.read.value.1);
  }

  /** A worker that still owns its row is never told of a conflict: the epoch it expects is the entity's epoch. */
  lemma NeverConflict(s: Store, workers: seq<Worker>, k: nat)
    requires Sound(s, workers) && k < |workers| && workers[k].read.Some?
    ensures var answer := CommitBy(s, workers[k]).1; answer.Ok? ==> !answer.value.Conflict?
    ensures CommitBy(s, workers[k]).1 != Missing
  {
    OwnerExpects(s, workers[k]);
  }

  lemma OwnerExpects(s: Store, w: Worker)
    requires Numbered(s.rows) && WorkerFits(s, w) && w.read.Some?
    ensures var answer := CommitBy(s, w).1; answer.Ok? ==> !answer.value.Conflict?
    ensures CommitBy(s, w).1 != Missing
  {
    RowOfId(s.rows, w.work.id - 1);
  }

  /** Sound looks at rows, history and snapshots alone, and a larger token counter does no harm. */
  lemma RestIrrelevant(s: Store, workers: seq<Worker>, s1: Store)
    requires Sound(s, workers) && s1.rows == s.rows && s1.history == s.history && s1.snapshots == s.snapshots
    requires s.token <= s1.token
    ensures Sound(s1, workers)
  {
    BooksKept(s, s1);
    forall k | 0 <= k < |workers|
      ensures WorkerFits(s1, workers[k])
    {
      assert WorkerFits(s, workers[k]);
    }
  }

  /** What a worker's commit does to the store: nothing, one more fenced, or the write. */
  lemma CommitCases(s: Store, w: Worker)
    requires Numbered(s.rows) && WorkerFits(s, w) && w.read.Some?
    ensures
      var s1, i := CommitBy(s, w).0, w.work.id - 1;
      || s1 == s || s1 == s.(fenced := s.fenced + 1)
      || (Owns(s.rows[i], w.token)
          && s1 == Committed(s, i, i + 1, w.token, w.read.value.1).(faults := s1.faults))
  {
    RowOfId(s.rows, w.work.id - 1);
  }

  lemma CommitKeeps(s: Store, workers: seq<Worker>, k: nat)
    requires Sound(s, workers) && k < |workers| && workers[k].read.Some?
    ensures Sound(CommitBy(s, workers[k]).0, workers)
  {
    var s1 := CommitBy(s, workers[k]).0;
    CommitCases(s, workers[k]);
    if s1 == s.(fenced := s.fenced + 1) || s1 == s {
      RestIrrelevant(s, workers, s1);
    } else {
      WrittenKeeps(s, workers, k, s1);
    }
  }

  lemma WrittenKeeps(s: Store, workers: seq<Worker>, k: nat, s1: Store)
    requires Sound(s, workers) && k < |workers| && workers[k].read.Some?
    requires
      var w := workers[k];
      && Owns(s.rows[w.work.id - 1], w.token)
      && s1 == Committed(s, w.work.id - 1, w.work.id, w.token, w.read.value.1).(faults := s1.faults)
    ensures Sound(s1, workers)
  {
    var w := workers[k];
    FinalizeKeeps(s, workers, k);
    RestIrrelevant(Committed(s, w.work.id - 1, w.work.id, w.token, w.read.value.1), workers, s1);
  }

  // ---------------------------------------------------------------- the other calls of a worker

  lemma RescheduleKeeps(s: Store, workers: seq<Worker>, id: int, lease: int)
    requires Sound(s, workers)
    ensures Sound(RescheduleSpec(s, id, lease).0, workers)
  {
    var found := RowOf(s.rows, id);
    if found.Some? && Owns(s.rows[found.value], lease) {
      UnleaseKeeps(s, workers, found.value, RescheduleSpec(s, id, lease).0.rows[found.value]);
    }
  }

  lemma FinishKeeps(s: Store, workers: seq<Worker>, id: int, lease: int, status: Status)
    requires Sound(s, workers) && (status == Status.Rejected || status == DeadLettered)
    ensures Sound(FinishSpec(s, id, lease, status).0, workers)
  {
    var found := RowOf(s.rows, id);
    if found.Some? && Owns(s.rows[found.value], lease) {
      UnleaseKeeps(s, workers, found.value, WithStatus(s.rows[found.value], status));
    }
  }

  lemma ReadKeeps(s: Store, workers: seq<Worker>, k: nat)
    requires Sound(s, workers) && k < |workers|
    ensures Sound(s, workers[k := ReadBy(s, workers[k])])
  {
    assert WorkerFits(s, workers[k]);
    var workers1 := workers[k := ReadBy(s, workers[k])];
    forall j | 0 <= j < |workers1|
      ensures WorkerFits(s, workers1[j])
    {
      assert WorkerFits(s, workers[j]);
    }
  }

  // ---------------------------------------------------------------- the whole system

  lemma NextSound(sys: System, e: Event)
    requires Sound(sys.store, sys.workers) && Possible(sys, e)
    ensures Sound(Next(sys, e).store, Next(sys, e).workers)
  {
    var s, ws := sys.store, sys.workers;
    match e {
      case Submit(machine, entity, key, event) => SubmitKeeps(s, ws, machine, entity, key, event);
      case Claim(machine, batch) => ClaimKeeps(s, ws, machine, batch);
      case Read(w) => ReadKeeps(s, ws, w);
      case Commit(w) => CommitKeeps(s, ws, w);
      case Reschedule(w) => RescheduleKeeps(s, ws, ws[w].work.id, ws[w].token);
      case Reject(w) => FinishKeeps(s, ws, ws[w].work.id, ws[w].token, Status.Rejected);
      case DeadLetter(w) => FinishKeeps(s, ws, ws[w].work.id, ws[w].token, DeadLettered);
      case Expire => ExpireKeeps(s, ws);
      case Deliver(_) =>
      case _ => RestIrrelevant(s, ws, Next(sys, e).store);
    }
  }
}
