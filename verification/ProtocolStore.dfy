/** The contract store as it runs: one mutable row per command, lists and counters updated in place. */
module ProtocolStore {
  import opened Text
  import opened StoreSpec

  class Row {
    var record: Record
    var token: int
    var deliveries: nat

    constructor (record: Record)
      ensures this.record == record && token == 0 && deliveries == 0
    {
      this.record, token, deliveries := record, 0, 0;
    }

    function Value(): RowValue
      reads this
    {
      RowValue(record, token, deliveries)
    }
  }

  function Values(rows: seq<Row>): (r: seq<RowValue>)
    reads rows
    ensures |r| == |rows| && forall i | 0 <= i < |rows| :: r[i] == rows[i].Value()
  {
    seq(|rows|, i requires 0 <= i < |rows| reads rows => rows[i].Value())
  }

  class TestStore {
    var commands: seq<Row>
    var history: seq<Transition>
    var snapshots: map<string, Snapshot>
    var pending: seq<LeasedAction>
    var activeActions: set<Key>
    var token: int
    var fenced: nat
    var acknowledged: nat
    var faults: Faults
    var lastCommit: Option<(int, int, nat, Draft)>

    ghost predicate Valid()
      reads this
    {
      forall i, j | 0 <= i < j < |commands| :: commands[i] != commands[j]
    }

    function View(): Store
      reads this, commands
    {
      Store(Values(commands), history, snapshots, pending, activeActions, token, fenced, acknowledged, faults)
    }

    constructor ()
      ensures Valid() && fresh(commands)
      ensures View() == Store([], [], map[], [], {}, 0, 0, 0, Faults(false, false, false))
    {
      commands, history, snapshots, pending, activeActions := [], [], map[], [], {};
      token, fenced, acknowledged, faults, lastCommit := 0, 0, 0, Faults(false, false, false), None;
    }

    method Submit(machine: string, entity: string, key: string, event: int) returns (outcome: SubmitOutcome)
      requires Valid()
      modifies this`commands
      ensures Valid() && fresh(set r | r in commands && r !in old(commands) :: r)
      ensures (View(), outcome) == SubmitSpec(old(View()), machine, entity, key, event)
    {
      var rows := Values(commands);
      match FindKey(rows, entity, key) {
        case Some(i) =>
          outcome := AlreadySubmitted(commands[i].record.id);
        case None =>
          var id := |commands| + 1;
          var sequence := 1 + CountOf(rows, entity);
          var row := new Row(Record(id, machine, entity, sequence, key, event, Ready, 0));
          commands := commands + [row];
          assert Values(commands) == rows + [row.Value()];
          outcome := Accepted(id);
      }
    }

    /** One round of `Claim`'s list expression. */
    method LeaseRow(i: nat) returns (leased: LeasedCommand)
      requires Valid() && i < |commands|
      modifies this`token, commands[i]
      ensures View() == Lease(old(View()), i)
      ensures leased == LeasedCommand(View().rows[i].record, token, View().rows[i].deliveries)
    {
      var r := commands[i];
      token := token + 1;
      r.token := token;
      r.deliveries := r.deliveries + 1;
      r.record := r.record.(status := Leased);
      assert View().rows == Lease(old(View()), i).rows;
      leased := LeasedCommand(r.record, token, r.deliveries);
    }

    method LeaseRows(indices: seq<nat>) returns (leased: seq<LeasedCommand>)
      requires Valid() && forall k | 0 <= k < |indices| :: indices[k] < |commands|
      modifies this`token, commands
      ensures (View(), leased) == LeaseAll(old(View()), indices)
    {
      ghost var s := View();
      leased := [];
      for k := 0 to |indices|
        invariant View() == LeaseAll(s, indices[..k]).0
        invariant leased == LeaseAll(s, indices[..k]).1
      {
        LeaseAllStep(s, indices, k);
        var work := LeaseRow(indices[k]);
        leased := leased + [work];
      }
      assert indices[..|indices|] == indices;
    }

    method Claim(machine: string, batch: int) returns (leased: seq<LeasedCommand>)
      requires Valid()
      modifies this`token, commands
      ensures Valid() && commands == old(commands)
      ensures (View(), leased) == ClaimSpec(old(View()), machine, batch)
    {
      var eligible := ToLease(Values(commands), machine, batch);
      leased := LeaseRows(eligible);
    }

    method Reschedule(id: int, lease: int) returns (answer: Answer<LeaseOutcome>)
      requires Valid()
      modifies commands
      ensures Valid() && commands == old(commands)
      ensures (View(), answer) == RescheduleSpec(old(View()), id, lease)
    {
      match RowOf(Values(commands), id) {
        case None => answer := Missing;
        case Some(i) =>
          var r := commands[i];
          if Owns(r.Value(), lease) {
            r.record := r.record.(status := Ready, attempts := r.record.attempts + 1);
            answer := Ok(Updated);
          } else {
            answer := Ok(Lost);
          }
      }
      assert View().rows == RescheduleSpec(old(View()), id, lease).0.rows;
    }

    method Expire()
      requires Valid()
      modifies this`activeActions, commands
      ensures Valid() && commands == old(commands)
      ensures View() == ExpireSpec(old(View()))
    {
      for k := 0 to |commands|
        invariant forall i | 0 <= i < k :: commands[i].Value() == ExpiredRow(old(commands[i].Value()))
        invariant forall i | k <= i < |commands| :: commands[i].Value() == old(commands[i].Value())
      {
        var r := commands[k];
        if r.record.status == Leased {
          r.record := r.record.(status := Ready);
        }
      }
      activeActions := {};
      assert View().rows == ExpiredRows(old(View()).rows);
    }

    /** The first part of `Commit`, before `BeforeCommit` and outside the lock. */
    method BeginCommit(id: int, lease: int, expected: nat, draft: Draft)
      modifies this`lastCommit
      ensures lastCommit == Some((id, lease, expected, draft))
    {
      lastCommit := Some((id, lease, expected, draft));
    }

    /** The second part of `Commit`, under the lock. */
    method Commit(id: int, lease: int, expected: nat, draft: Draft) returns (answer: Answer<FinalizeOutcome>)
      requires Valid()
      modifies this`fenced, this`history, this`snapshots, this`pending, this`faults, commands
      ensures Valid() && commands == old(commands)
      ensures (View(), answer) == CommitSpec(old(View()), id, lease, expected, draft)
    {
      var found := RowOf(Values(commands), id);
      if found.None? {
        return Missing;
      }
      var r := commands[found.value];
      var previous := SnapshotOf(snapshots, draft.entity);
      if r.record.status == Succeeded && r.token == lease {
        return Ok(AlreadyFinalized(previous.epoch));
      }
      if !Owns(r.Value(), lease) {
        fenced := fenced + 1;
        return Ok(LeaseLost);
      }
      if expected != previous.epoch {
        return Ok(Conflict(expected, previous.epoch));
      }
      if faults.failCommit {
        return Unavailable;
      }
      answer := Finalize(found.value, id, lease, draft);
    }

    /** The branch of `Commit` that writes. */
    method Finalize(i: nat, id: int, lease: int, draft: Draft) returns (answer: Answer<FinalizeOutcome>)
      requires Valid() && i < |commands|
      modifies this`history, this`snapshots, this`pending, this`faults, commands
      ensures Valid() && commands == old(commands)
      ensures
        var s := Committed(old(View()), i, id, lease, draft);
        View() == s.(faults := s.faults.(loseCommitResponse := false))
      ensures answer ==
        if old(faults).loseCommitResponse then Unavailable
        else Ok(Finalized(SnapshotOf(old(snapshots), draft.entity).epoch + 1))
    {
      var r := commands[i];
      var epoch := SnapshotOf(snapshots, draft.entity).epoch + 1;
      history := history + [Transition(draft, epoch, id)];
      snapshots := snapshots[draft.entity := Snapshot(draft.toState, epoch)];
      r.record := r.record.(status := Succeeded);
      r.token := lease;
      AddActions(id, epoch, draft);
      assert View().rows == Committed(old(View()), i, id, lease, draft).rows;
      if faults.loseCommitResponse {
        faults := faults.(loseCommitResponse := false);
        answer := Unavailable;
      } else {
        answer := Ok(Finalized(epoch));
      }
    }

    method AddActions(id: int, epoch: nat, draft: Draft)
      modifies this`pending
      ensures pending == old(pending) + NewActions(draft, id, epoch, |draft.actions|)
    {
      for ordinal := 0 to |draft.actions|
        invariant pending == old(pending) + NewActions(draft, id, epoch, ordinal)
      {
        var work := Action(draft.machine, draft.entity, id, epoch, ordinal, draft.actions[ordinal]);
        pending := pending + [LeasedAction(work, 0, 0)];
      }
    }

    method Reject(id: int, lease: int) returns (answer: Answer<FinalizeOutcome>)
      requires Valid()
      modifies commands
      ensures Valid() && commands == old(commands)
      ensures (View(), answer) == FinishSpec(old(View()), id, lease, Rejected)
    {
      answer := Missing;
      var found := RowOf(Values(commands), id);
      if found.Some? {
        var r := commands[found.value];
        if Owns(r.Value(), lease) {
          r.record := r.record.(status := Rejected);
          answer := Ok(Finalized(SnapshotOf(snapshots, r.record.entity).epoch));
        } else {
          answer := Ok(LeaseLost);
        }
      }
      assert View().rows == FinishSpec(old(View()), id, lease, Rejected).0.rows;
    }

    method DeadLetter(id: int, lease: int) returns (answer: Answer<FinalizeOutcome>)
      requires Valid()
      modifies commands
      ensures Valid() && commands == old(commands)
      ensures (View(), answer) == FinishSpec(old(View()), id, lease, DeadLettered)
    {
      answer := Missing;
      var found := RowOf(Values(commands), id);
      if found.Some? {
        var r := commands[found.value];
        if Owns(r.Value(), lease) {
          r.record := r.record.(status := DeadLettered);
          answer := Ok(Finalized(SnapshotOf(snapshots, r.record.entity).epoch));
        } else {
          answer := Ok(LeaseLost);
        }
      }
      assert View().rows == FinishSpec(old(View()), id, lease, DeadLettered).0.rows;
    }

    method LeaseAvailable(available: seq<LeasedAction>) returns (leased: seq<LeasedAction>)
      modifies this`token, this`activeActions
      ensures (View(), leased) == LeaseActions(old(View()), available)
    {
      ghost var s := View();
      leased := [];
      for k := 0 to |available|
        invariant token == LeaseActions(s, available[..k]).0.token
        invariant activeActions == LeaseActions(s, available[..k]).0.active
        invariant leased == LeaseActions(s, available[..k]).1
      {
        LeaseActionsStep(s, available, k);
        var a := available[k];
        token := token + 1;
        activeActions := activeActions + {KeyOf(a.work)};
        leased := leased + [LeasedAction(a.work, token, a.deliveries + 1)];
      }
      assert available[..|available|] == available;
    }

    method ClaimActions(batch: int) returns (leased: seq<LeasedAction>)
      modifies this`token, this`activeActions
      ensures (View(), leased) == ClaimActionsSpec(old(View()), batch)
    {
      var available := Truncate(Available(pending, activeActions), batch);
      leased := LeaseAvailable(available);
    }

    method Complete(action: Action) returns (answer: Answer<LeaseOutcome>)
      modifies this`activeActions, this`faults, this`pending, this`acknowledged
      ensures (View(), answer) == CompleteSpec(old(View()), action)
    {
      activeActions := activeActions - {KeyOf(action)};
      if faults.loseAck {
        faults := faults.(loseAck := false);
        answer := Unavailable;
      } else {
        pending := WithoutKey(pending, KeyOf(action));
        acknowledged := acknowledged + 1;
        answer := Ok(Updated);
      }
    }

    method RescheduleAction(action: Action)
      modifies this`activeActions
      ensures View() == RescheduleActionSpec(old(View()), action)
    {
      activeActions := activeActions - {KeyOf(action)};
    }

    method Abandon(action: Action)
      modifies this`pending
      ensures View() == AbandonSpec(old(View()), action)
    {
      pending := WithoutKey(pending, KeyOf(action));
    }
  }

  /** The handler's destination, with its counters and its memory of the keys it has applied. */
  class Destination {
    var seen: set<Key>
    var attempts: nat
    var effects: nat

    constructor ()
      ensures seen == {} && attempts == 0 && effects == 0
    {
      seen, attempts, effects := {}, 0, 0;
    }

    method Handle(action: Action)
      modifies this
      ensures (seen, attempts, effects) == Handled(old(seen), old(attempts), old(effects), KeyOf(action))
    {
      attempts := attempts + 1;
      if KeyOf(action) !in seen {
        seen := seen + {KeyOf(action)};
        effects := effects + 1;
      } else {
        assert seen + {KeyOf(action)} == seen;
      }
    }
  }
}
