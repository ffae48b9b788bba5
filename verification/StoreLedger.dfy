/** What was submitted and what became of it: the rows are the first submissions, in order, and the entities' states the
    sums of the payloads first submitted. */
module StoreLedger {
  import opened StoreSpec
  import opened StoreSystem
  import opened StoreInvariant
  import opened StoreSafety
  import opened StoreAnswers

  datatype Entry = Entry(machine: string, entity: string, key: string, event: int)

  // ---------------------------------------------------------------- one submission

  /** A row as it is first stored: the submission's, ready, never attempted, leased or handed out. */
  predicate Fresh(row: RowValue, machine: string, entity: string, key: string, event: int) {
    && row.record.machine == machine && row.record.entity == entity && row.record.key == key
    && row.record.event == event && row.record.status == Ready && row.record.attempts == 0
    && row.token == 0 && row.deliveries == 0
  }

  /** A submission under a new entity and key adds one row, which bears it, and changes nothing else; under a known
      one it changes nothing, and the answer is the id of the row that has it. */
  lemma SubmitStores(s: Store, machine: string, entity: string, key: string, event: int)
    requires Numbered(s.rows)
    ensures
      var (s1, outcome) := SubmitSpec(s, machine, entity, key, event);
      && s1 == s.(rows := s1.rows)
      && ((exists i | 0 <= i < |s.rows| :: HasKey(s.rows[i], entity, key)) ==>
            s1.rows == s.rows && outcome.AlreadySubmitted? && 1 <= outcome.id <= |s.rows|
            && HasKey(s.rows[outcome.id - 1], entity, key))
      && ((forall i | 0 <= i < |s.rows| :: !HasKey(s.rows[i], entity, key)) ==>
            |s1.rows| == |s.rows| + 1 && s1.rows[..|s.rows|] == s.rows
            && Fresh(s1.rows[|s.rows|], machine, entity, key, event)
            && s1.rows[|s.rows|].record.id == |s.rows| + 1 && outcome == Accepted(|s.rows| + 1))
  {
  }

  // ---------------------------------------------------------------- a whole run

  predicate Submitted(ledger: seq<Entry>, entity: string, key: string) {
    exists x | x in ledger :: x.entity == entity && x.key == key
  }

  /** The first submission of each entity and key is booked. */
  function Booked(ledger: seq<Entry>, e: Event): seq<Entry> {
    if e.Submit? && !Submitted(ledger, e.entity, e.key) then ledger + [Entry(e.machine, e.entity, e.key, e.event)]
    else ledger
  }

  function Ledger(ledger: seq<Entry>, events: seq<Event>): seq<Entry>
    decreases |events|
  {
    if |events| == 0 then ledger else Ledger(Booked(ledger, events[0]), events[1..])
  }

  predicate Bears(row: RowValue, x: Entry) {
    row.record.machine == x.machine && row.record.entity == x.entity && row.record.key == x.key
    && row.record.event == x.event
  }

  /** The rows are those booked, one for one and in order. */
  predicate RowsBear(rows: seq<RowValue>, ledger: seq<Entry>) {
    |rows| == |ledger| && forall i | 0 <= i < |rows| :: Bears(rows[i], ledger[i])
  }

  lemma KnownIsSubmitted(rows: seq<RowValue>, ledger: seq<Entry>, entity: string, key: string)
    requires RowsBear(rows, ledger)
    ensures FindKey(rows, entity, key).Some? <==> Submitted(ledger, entity, key)
  {
    if FindKey(rows, entity, key).Some? {
      var i := FindKey(rows, entity, key).value;
      assert Bears(rows[i], ledger[i]) && ledger[i] in ledger;
    }
    if Submitted(ledger, entity, key) {
      var i :| 0 <= i < |ledger| && ledger[i].entity == entity && ledger[i].key == key;
      assert Bears(rows[i], ledger[i]) && HasKey(rows[i], entity, key);
    }
  }

  lemma SubmitBooks(s: Store, ledger: seq<Entry>, machine: string, entity: string, key: string, event: int)
    requires RowsBear(s.rows, ledger) && Numbered(s.rows)
    ensures RowsBear(SubmitSpec(s, machine, entity, key, event).0.rows,
                     Booked(ledger, Event.Submit(machine, entity, key, event)))
  {
    KnownIsSubmitted(s.rows, ledger, entity, key);
    SubmitStores(s, machine, entity, key, event);
    var rows1 := SubmitSpec(s, machine, entity, key, event).0.rows;
    if FindKey(s.rows, entity, key).None? {
      forall i | 0 <= i < |s.rows|
        ensures rows1[i] == s.rows[i]
      {
        assert rows1[..|s.rows|][i] == s.rows[i];
      }
    }
  }

  /** No other call adds a row. */
  lemma OthersAddNone(sys: System, e: Event)
    requires Possible(sys, e) && !e.Submit?
    ensures |Next(sys, e).store.rows| == |sys.store.rows|
  {
  }

  lemma NextBears(sys: System, e: Event, ledger: seq<Entry>)
    requires Inv(sys) && Possible(sys, e) && RowsBear(sys.store.rows, ledger)
    ensures RowsBear(Next(sys, e).store.rows, Booked(ledger, e))
  {
    if e.Submit? {
      SubmitBooks(sys.store, ledger, e.machine, e.entity, e.key, e.event);
    } else {
      NextExtends(sys, e);
      OthersAddNone(sys, e);
      KeptBear(sys.store.rows, Next(sys, e).store.rows, ledger);
    }
  }

  lemma KeptBear(rows: seq<RowValue>, rows1: seq<RowValue>, ledger: seq<Entry>)
    requires RowsBear(rows, ledger) && Extends(rows, rows1) && |rows1| == |rows|
    ensures RowsBear(rows1, ledger)
  {
    forall i | 0 <= i < |rows1|
      ensures Bears(rows1[i], ledger[i])
    {
      assert SameCommand(rows[i].record, rows1[i].record) && Bears(rows[i], ledger[i]);
    }
  }

  lemma {:induction false} RunBears(sys: System, events: seq<Event>, ledger: seq<Entry>)
    requires Inv(sys) && PossibleRun(sys, events) && RowsBear(sys.store.rows, ledger)
    ensures RowsBear(Run(sys, events).store.rows, Ledger(ledger, events))
    decreases |events|
  {
    if |events| > 0 {
      NextBears(sys, events[0], ledger);
      NextInv(sys, events[0]);
      RunBears(Next(sys, events[0]), events[1..], Booked(ledger, events[0]));
    }
  }

  /** After any run, the rows are the first submissions of the run, in order, with the machine, entity, key and payload
      submitted. */
  lemma RowsAreSubmissions(events: seq<Event>)
    requires PossibleRun(EMPTY, events)
    ensures RowsBear(Run(EMPTY, events).store.rows, Ledger([], events))
  {
    EmptyInv();
    RunBears(EMPTY, events, []);
  }

  // ---------------------------------------------------------------- what an entity's state is

  /** The payloads booked for the entity, of the commands in the history. */
  function SumBooked(ledger: seq<Entry>, history: seq<Transition>, entity: string): int {
    if |ledger| == 0 then 0
    else
      var last := ledger[|ledger| - 1];
      SumBooked(ledger[..|ledger| - 1], history, entity) +
      if last.entity == entity && InHistory(history, |ledger|) then last.event else 0
  }

  lemma {:induction false} SumsAgree(
      rows: seq<RowValue>, ledger: seq<Entry>, history: seq<Transition>, entity: string, n: nat)
    requires RowsBear(rows, ledger) && n <= |rows|
    requires forall i | 0 <= i < |rows| :: rows[i].record.status == Succeeded <==> InHistory(history, i + 1)
    ensures SumSucceeded(rows[..n], entity) == SumBooked(ledger[..n], history, entity)
  {
    if n > 0 {
      SumsAgree(rows, ledger, history, entity, n - 1);
      assert rows[..n][..n - 1] == rows[..n - 1] && ledger[..n][..n - 1] == ledger[..n - 1];
      assert Bears(rows[n - 1], ledger[n - 1]);
      assert rows[n - 1].record.status == Succeeded <==> InHistory(history, n - 1 + 1);
    }
  }

  /** After any run, an entity's state is the 32-bit sum of the payloads first submitted under the keys of its committed
      commands: no payload is lost, altered or counted twice. */
  lemma StateIsSubmitted(events: seq<Event>, entity: string)
    requires PossibleRun(EMPTY, events)
    ensures
      var s := Run(EMPTY, events).store;
      SnapshotOf(s.snapshots, entity).state == Wrap32(SumBooked(Ledger([], events), s.history, entity))
  {
    var sys, ledger := Run(EMPTY, events), Ledger([], events);
    RowsAreSubmissions(events);
    ExactlyOnce(sys, entity);
    SumsAgree(sys.store.rows, ledger, sys.store.history, entity, |ledger|);
    assert sys.store.rows[..|ledger|] == sys.store.rows && ledger[..|ledger|] == ledger;
  }

  // ---------------------------------------------------------------- where pending actions come from

  /** The action is one of the transition: same machine, entity, command and epoch, and the draft's action at its
      position. */
  predicate ActionOf(a: Action, t: Transition) {
    && a.machine == t.draft.machine && a.entity == t.draft.entity && a.commandId == t.commandId && a.epoch == t.epoch
    && a.ordinal < |t.draft.actions| && a.name == t.draft.actions[a.ordinal]
  }

  predicate IsSourced(a: Action, history: seq<Transition>) {
    exists t | t in history :: ActionOf(a, t)
  }

  predicate AllSourced(s: Store) {
    forall a | a in s.pending :: IsSourced(a.work, s.history)
  }

  lemma StillSourced(a: Action, history: seq<Transition>, t: Transition)
    requires IsSourced(a, history)
    ensures IsSourced(a, history + [t])
  {
    var u :| u in history && ActionOf(a, u);
    assert u in history + [t];
  }

  lemma CommittedSourced(s: Store, i: nat, id: int, lease: int, draft: Draft)
    requires i < |s.rows| && AllSourced(s)
    ensures AllSourced(Committed(s, i, id, lease, draft))
  {
    var s1 := Committed(s, i, id, lease, draft);
    var t := s1.history[|s.history|];
    forall a | a in s1.pending
      ensures IsSourced(a.work, s1.history)
    {
      if a in s.pending {
        StillSourced(a.work, s.history, t);
      } else {
        assert t in s1.history && ActionOf(a.work, t);
      }
    }
  }

  lemma NextSourced(sys: System, e: Event)
    requires Inv(sys) && Possible(sys, e) && AllSourced(sys.store)
    ensures AllSourced(Next(sys, e).store)
  {
    if e.Commit? {
      var s, w := sys.store, sys.workers[e.worker];
      assert WorkerFits(s, w);
      CommitCases(s, w);
      if Owns(s.rows[w.work.id - 1], w.token) {
        CommittedSourced(s, w.work.id - 1, w.work.id, w.token, w.read.value.1);
      }
    } else {
      OthersSourced(sys, e);
    }
  }

  lemma OthersSourced(sys: System, e: Event)
    requires Possible(sys, e) && !e.Commit? && AllSourced(sys.store)
    ensures AllSourced(Next(sys, e).store)
  {
    assert Next(sys, e).store.history == sys.store.history;
    assert forall a | a in Next(sys, e).store.pending :: a in sys.store.pending;
  }

  lemma {:induction false} RunSourced(sys: System, events: seq<Event>)
    requires Inv(sys) && PossibleRun(sys, events) && AllSourced(sys.store)
    ensures AllSourced(Run(sys, events).store)
    decreases |events|
  {
    if |events| > 0 {
      NextSourced(sys, events[0]);
      NextInv(sys, events[0]);
      RunSourced(Next(sys, events[0]), events[1..]);
    }
  }

  /** After any run, every pending action is one of a committed transition, with its machine, entity, command, epoch and
      name. */
  lemma PendingIsSourced(events: seq<Event>)
    requires PossibleRun(EMPTY, events)
    ensures AllSourced(Run(EMPTY, events).store)
  {
    EmptyInv();
    RunSourced(EMPTY, events);
  }
}
