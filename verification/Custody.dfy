/** Sixteen slots of process custody, shared by concurrent invocations: whoever claims a slot first tries to release the
    sessions other invocations have left in the pool. */
module Custody {
  import opened Text

  /** A prepared process session, known by its reference. */
  type Session = nat

  datatype Slot = Vacant | Claimed | Retained(session: Session)

  /** What `TryRelease` does: accept, refuse, or raise. */
  datatype Reply = ResourcesReleased | ReleaseRefused | Raised

  type Replies = Session -> Reply

  const CAPACITY: nat := 16

  // ---------------------------------------------------------------- the two critical sections as functions

  /** `releaseSlot`: the slot is emptied only if it still holds this very session. */
  function ReleaseSpec(custody: seq<Slot>, slot: nat, session: Session, reply: Replies): (seq<Slot>, bool)
    requires slot < |custody|
  {
    if reply(session).ResourcesReleased? then
      (if custody[slot] == Retained(session) then custody[slot := Vacant] else custody, true)
    else (custody, false)
  }

  /** A release answers whether the session accepted, refusing and raising alike being no; accepted, the session is in
      the slot no longer, and the slot is vacated if it was the session's; otherwise, and in every other slot, nothing
      changes. */
  lemma ReleaseMeans(custody: seq<Slot>, slot: nat, session: Session, reply: Replies)
    requires slot < |custody|
    ensures
      var (after, released) := ReleaseSpec(custody, slot, session, reply);
      && (released <==> reply(session) == ResourcesReleased)
      && |after| == |custody| && (forall k | 0 <= k < |custody| && k != slot :: after[k] == custody[k])
      && (released ==> after[slot] == if custody[slot] == Retained(session) then Vacant else custody[slot])
      && (!released ==> after == custody)
  {
  }

  /** The first `n` slots after the sweep that begins `claimSlot`. */
  function SweepSpec(custody: seq<Slot>, n: nat, reply: Replies): (r: seq<Slot>)
    requires n <= |custody|
    ensures |r| == |custody|
  {
    if n == 0 then custody
    else
      var swept := SweepSpec(custody, n - 1, reply);
      match swept[n - 1]
      case Retained(session) => ReleaseSpec(swept, n - 1, session, reply).0
      case _ => swept
  }

  function FirstVacant(custody: seq<Slot>, from: nat): (r: Option<nat>)
    requires from <= |custody|
    ensures r.Some? ==> from <= r.value < |custody| && custody[r.value] == Vacant
    ensures r.Some? ==> forall k | from <= k < r.value :: custody[k] != Vacant
    ensures r.None? ==> forall k | from <= k < |custody| :: custody[k] != Vacant
    decreases |custody| - from
  {
    if from == |custody| then None
    else if custody[from] == Vacant then Some(from)
    else FirstVacant(custody, from + 1)
  }

  function ClaimSpec(custody: seq<Slot>, reply: Replies): (seq<Slot>, Option<nat>) {
    var swept := SweepSpec(custody, |custody|, reply);
    match FirstVacant(swept, 0)
    case None => (swept, None)
    case Some(k) => (swept[k := Claimed], Some(k))
  }

  /** A slot after the sweep: vacated exactly when its session accepts. */
  function SweptSlot(slot: Slot, reply: Replies): Slot {
    if slot.Retained? && reply(slot.session).ResourcesReleased? then Vacant else slot
  }

  lemma {:induction false} SweepMeans(custody: seq<Slot>, n: nat, reply: Replies)
    requires n <= |custody|
    ensures forall k | 0 <= k < |custody| ::
      SweepSpec(custody, n, reply)[k] == if k < n then SweptSlot(custody[k], reply) else custody[k]
  {
    if n > 0 {
      SweepMeans(custody, n - 1, reply);
    }
  }

  /** A slot that a claim could not use: claimed by another invocation, or holding a session that does not accept. */
  predicate Occupied(slot: Slot, reply: Replies) {
    slot == Claimed || (slot.Retained? && !reply(slot.session).ResourcesReleased?)
  }

  /** A claim fails exactly when every slot is claimed or holds a session that refuses; otherwise it takes the first
      slot that is not, and no other slot changes except that sessions that accept leave theirs. */
  lemma ClaimMeans(custody: seq<Slot>, reply: Replies)
    ensures
      var (after, slot) := ClaimSpec(custody, reply);
      && |after| == |custody|
      && (slot.None? <==> forall k | 0 <= k < |custody| :: Occupied(custody[k], reply))
      && (slot.Some? ==> slot.value < |custody| && !Occupied(custody[slot.value], reply))
      && (slot.Some? ==> forall k | 0 <= k < slot.value && k < |custody| :: Occupied(custody[k], reply))
      && (forall k | 0 <= k < |custody| ::
            after[k] == if slot == Some(k) then Claimed else SweptSlot(custody[k], reply))
  {
    SweepMeans(custody, |custody|, reply);
    var swept := SweepSpec(custody, |custody|, reply);
    forall k | 0 <= k < |custody|
      ensures swept[k] == Vacant <==> !Occupied(custody[k], reply)
    {
      assert swept[k] == SweptSlot(custody[k], reply);
    }
  }

  // ---------------------------------------------------------------- the pool as it runs

  class Pool {
    const custody: array<Slot>

    constructor ()
      ensures custody.Length == CAPACITY && fresh(custody)
      ensures forall k | 0 <= k < CAPACITY :: custody[k] == Vacant
    {
      custody := new Slot[CAPACITY](_ => Vacant);
    }

    predicate StillOwnsSlot(slot: nat, session: Session)
      requires slot < custody.Length
      reads custody
    {
      match custody[slot]
      case Retained(current) => current == session
      case _ => false
    }

    method ReleaseSlot(slot: nat, session: Session, reply: Replies) returns (released: bool)
      requires slot < custody.Length
      modifies custody
      ensures (custody[..], released) == ReleaseSpec(old(custody[..]), slot, session, reply)
    {
      match reply(session) {
        case ResourcesReleased =>
          if StillOwnsSlot(slot, session) {
            custody[slot] := Vacant;
          }
          released := true;
        case _ =>
          if StillOwnsSlot(slot, session) {
            custody[slot] := Retained(session);
          }
          released := false;
      }
      assert custody[..] == ReleaseSpec(old(custody[..]), slot, session, reply).0;
    }

    method ClaimSlot(reply: Replies) returns (claimed: Option<nat>)
      modifies custody
      ensures (custody[..], claimed) == ClaimSpec(old(custody[..]), reply)
    {
      for index := 0 to custody.Length
        invariant custody[..] == SweepSpec(old(custody[..]), index, reply)
      {
        match custody[index] {
          case Retained(session) =>
            var _ := ReleaseSlot(index, session, reply);
          case _ =>
        }
      }
      claimed := FirstVacant(custody[..], 0);
      if claimed.Some? {
        custody[claimed.value] := Claimed;
      }
    }

    /** `lock custodyGate (fun () -> custody[slot] <- Retained session)` */
    method Register(slot: nat, session: Session)
      requires slot < custody.Length
      modifies custody
      ensures custody[..] == old(custody[..])[slot := Retained(session)]
    {
      custody[slot] := Retained(session);
    }

    /** `lock custodyGate (fun () -> custody[slot] <- Vacant)` */
    method Vacate(slot: nat)
      requires slot < custody.Length
      modifies custody
      ensures custody[..] == old(custody[..])[slot := Vacant]
    {
      custody[slot] := Vacant;
    }
  }

  // ---------------------------------------------------------------- invocations

  /** Where an invocation of `executeText` stands between critical sections. */
  datatype Phase =
    | Entered
    | Holding(slot: nat)
    | Prepared(slot: nat, session: Session)
    | Running(slot: nat, session: Session)
    | Settled(slot: nat, session: Session, ownsSlot: bool)
    | Finished

  /** The pool, the invocations, the sessions registered so far and those of them that have accepted release. */
  datatype System = System(
    custody: seq<Slot>, invocations: seq<Phase>, prepared: nat, home: map<Session, nat>, accepted: set<Session>)

  function AllVacant(n: nat): (r: seq<Slot>)
    ensures |r| == n && forall k | 0 <= k < n :: r[k] == Vacant
  {
    if n == 0 then [] else AllVacant(n - 1) + [Vacant]
  }

  const EMPTY: System := System(AllVacant(CAPACITY), [], 0, map[], {})

  /** The steps of one invocation; the replies are those of the sessions asked within the step. */
  datatype Event =
    | Enter
    | Claim(i: nat, reply: Replies)
    | Prepare(i: nat)
    | Register(i: nat)
    | Release(i: nat, reply: Replies)
    | Finally(i: nat, reply: Replies)

  /** A session that has accepted release accepts it again. */
  ghost predicate Stable(sys: System, reply: Replies) {
    forall s | s in sys.accepted :: reply(s).ResourcesReleased?
  }

  ghost predicate Possible(sys: System, e: Event) {
    match e
    case Enter => true
    case Claim(i, reply) => i < |sys.invocations| && sys.invocations[i].Entered? && Stable(sys, reply)
    case Prepare(i) => i < |sys.invocations| && sys.invocations[i].Holding?
    case Register(i) => i < |sys.invocations| && sys.invocations[i].Prepared?
    case Release(i, reply) => i < |sys.invocations| && sys.invocations[i].Running? && Stable(sys, reply)
    case Finally(i, reply) =>
      i < |sys.invocations| && Stable(sys, reply) &&
      (sys.invocations[i].Holding? || sys.invocations[i].Running? || sys.invocations[i].Settled?)
  }

  function At(sys: System, i: nat, phase: Phase): System
    requires i < |sys.invocations|
  {
    sys.(invocations := sys.invocations[i := phase])
  }

  /** The sessions in the pool that accept. */
  function Accepting(custody: seq<Slot>, reply: Replies): set<Session> {
    set k | 0 <= k < |custody| && custody[k].Retained? && reply(custody[k].session).ResourcesReleased? ::
      custody[k].session
  }

  function ReleaseBy(sys: System, slot: nat, session: Session, reply: Replies): System
    requires slot < |sys.custody|
  {
    sys.(custody := ReleaseSpec(sys.custody, slot, session, reply).0,
         accepted := sys.accepted + if reply(session).ResourcesReleased? then {session} else {})
  }

  function Next(sys: System, e: Event): System
    requires Possible(sys, e) && InPool(sys)
  {
    match e
    case Enter => sys.(invocations := sys.invocations + [Entered])
    case Claim(i, reply) =>
      var (custody, slot) := ClaimSpec(sys.custody, reply);
      At(sys.(custody := custody, accepted := sys.accepted + Accepting(sys.custody, reply)), i,
         if slot.None? then Finished else Holding(slot.value))
    case Prepare(i) =>
      At(sys.(prepared := sys.prepared + 1), i, Prepared(sys.invocations[i].slot, sys.prepared))
    case Register(i) =>
      var (slot, session) := (sys.invocations[i].slot, sys.invocations[i].session);
      At(sys.(custody := sys.custody[slot := Retained(session)], home := sys.home[session := slot]), i,
         Running(slot, session))
    case Release(i, reply) =>
      var (slot, session) := (sys.invocations[i].slot, sys.invocations[i].session);
      At(ReleaseBy(sys, slot, session, reply), i, Settled(slot, session, !reply(session).ResourcesReleased?))
    case Finally(i, reply) =>
      var phase := sys.invocations[i];
      if phase.Holding? then At(sys.(custody := sys.custody[phase.slot := Vacant]), i, Finished)
      else if phase.Settled? && !phase.ownsSlot then At(sys, i, Finished)
      else At(ReleaseBy(sys, phase.slot, phase.session, reply), i, Finished)
  }

  /** Every slot number is one of the pool's. */
  predicate InPool(sys: System) {
    && |sys.custody| == CAPACITY
    && (forall i | 0 <= i < |sys.invocations| && !sys.invocations[i].Entered? && !sys.invocations[i].Finished? ::
          sys.invocations[i].slot < CAPACITY)
    && (forall s | s in sys.home :: sys.home[s] < CAPACITY)
  }

  predicate Claims(phase: Phase, k: nat) {
    (phase.Holding? || phase.Prepared?) && phase.slot == k
  }

  /** Each claimed slot has exactly one invocation between its claim and its registration, and each such invocation's
      slot is claimed. */
  predicate OneOwner(sys: System) {
    && (forall i | 0 <= i < |sys.invocations| && (sys.invocations[i].Holding? || sys.invocations[i].Prepared?) ::
          sys.invocations[i].slot < |sys.custody| && sys.custody[sys.invocations[i].slot] == Claimed)
    && (forall i, j | 0 <= i < j < |sys.invocations| && (sys.invocations[i].Holding? || sys.invocations[i].Prepared?) ::
          !Claims(sys.invocations[j], sys.invocations[i].slot))
    && (forall k | 0 <= k < |sys.custody| && sys.custody[k] == Claimed ::
          exists i | 0 <= i < |sys.invocations| :: Claims(sys.invocations[i], k))
  }

  /** A registered session that has not accepted release is retained in its slot, and nothing else is retained. */
  predicate Custodial(sys: System) {
    && sys.accepted <= sys.home.Keys
    && (forall s | s in sys.home && s !in sys.accepted ::
          sys.home[s] < |sys.custody| && sys.custody[sys.home[s]] == Retained(s))
    && (forall k | 0 <= k < |sys.custody| && sys.custody[k].Retained? ::
          sys.custody[k].session in sys.home && sys.custody[k].session !in sys.accepted
          && sys.home[sys.custody[k].session] == k)
  }

  /** Sessions are prepared once and registered by the invocation that prepared them, in the slot it claimed. */
  predicate Known(sys: System) {
    && (forall s | s in sys.home :: s < sys.prepared)
    && (forall i | 0 <= i < |sys.invocations| && sys.invocations[i].Prepared? ::
          sys.invocations[i].session < sys.prepared && sys.invocations[i].session !in sys.home)
    && (forall i, j | 0 <= i < j < |sys.invocations| && sys.invocations[i].Prepared? && sys.invocations[j].Prepared? ::
          sys.invocations[i].session != sys.invocations[j].session)
    && (forall i | 0 <= i < |sys.invocations| && (sys.invocations[i].Running? || sys.invocations[i].Settled?) ::
          sys.invocations[i].session in sys.home && sys.home[sys.invocations[i].session] == sys.invocations[i].slot)
  }

  predicate Inv(sys: System) {
    InPool(sys) && OneOwner(sys) && Custodial(sys) && Known(sys)
  }

  // ---------------------------------------------------------------- every step keeps the invariant

  /** An invocation moves on from one phase to another that claims no slot, and the pool stays as it is. */
  lemma MovesOn(sys: System, i: nat, phase: Phase)
    requires Inv(sys) && i < |sys.invocations|
    requires phase == Finished || (sys.invocations[i].Running? && phase.Settled?
               && phase.slot == sys.invocations[i].slot && phase.session == sys.invocations[i].session)
    requires !sys.invocations[i].Holding? && !sys.invocations[i].Prepared?
    ensures Inv(At(sys, i, phase))
  {
    var sys1 := At(sys, i, phase);
    forall k | 0 <= k < |sys.custody| && sys.custody[k] == Claimed
      ensures exists j | 0 <= j < |sys1.invocations| :: Claims(sys1.invocations[j], k)
    {
      var j :| 0 <= j < |sys.invocations| && Claims(sys.invocations[j], k);
      assert Claims(sys1.invocations[j], k);
    }
  }

  /** A registered session leaves its slot when it accepts, if it is still there. */
  lemma ReleaseByKeeps(sys: System, slot: nat, session: Session, reply: Replies)
    requires Inv(sys) && session in sys.home && sys.home[session] == slot && slot < |sys.custody|
    ensures Inv(ReleaseBy(sys, slot, session, reply))
  {
    var sys1 := ReleaseBy(sys, slot, session, reply);
    forall k | 0 <= k < |sys1.custody| && sys1.custody[k] == Claimed
      ensures exists j | 0 <= j < |sys1.invocations| :: Claims(sys1.invocations[j], k)
    {
      assert sys.custody[k] == Claimed;
    }
  }

  lemma HoldingFinishes(sys: System, i: nat)
    requires Inv(sys) && i < |sys.invocations| && sys.invocations[i].Holding?
    ensures Inv(At(sys.(custody := sys.custody[sys.invocations[i].slot := Vacant]), i, Finished))
  {
    var slot := sys.invocations[i].slot;
    var sys1 := At(sys.(custody := sys.custody[slot := Vacant]), i, Finished);
    forall k | 0 <= k < |sys1.custody| && sys1.custody[k] == Claimed
      ensures exists j | 0 <= j < |sys1.invocations| :: Claims(sys1.invocations[j], k)
    {
      var j :| 0 <= j < |sys.invocations| && Claims(sys.invocations[j], k);
      assert Claims(sys1.invocations[j], k);
    }
  }

  lemma PrepareKeeps(sys: System, i: nat)
    requires Inv(sys) && Possible(sys, Event.Prepare(i))
    ensures Inv(Next(sys, Event.Prepare(i)))
  {
    var sys1 := Next(sys, Event.Prepare(i));
    forall k | 0 <= k < |sys1.custody| && sys1.custody[k] == Claimed
      ensures exists j | 0 <= j < |sys1.invocations| :: Claims(sys1.invocations[j], k)
    {
      var j :| 0 <= j < |sys.invocations| && Claims(sys.invocations[j], k);
      assert Claims(sys1.invocations[j], k);
    }
  }

  lemma RegisterKeeps(sys: System, i: nat)
    requires Inv(sys) && Possible(sys, Event.Register(i))
    ensures Inv(Next(sys, Event.Register(i)))
  {
    var sys1 := Next(sys, Event.Register(i));
    forall k | 0 <= k < |sys1.custody| && sys1.custody[k] == Claimed
      ensures exists j | 0 <= j < |sys1.invocations| :: Claims(sys1.invocations[j], k)
    {
      var j :| 0 <= j < |sys.invocations| && Claims(sys.invocations[j], k);
      assert Claims(sys1.invocations[j], k);
    }
  }

  lemma EnterKeeps(sys: System)
    requires Inv(sys)
    ensures Inv(Next(sys, Enter))
  {
    var sys1 := Next(sys, Enter);
    forall k | 0 <= k < |sys1.custody| && sys1.custody[k] == Claimed
      ensures exists j | 0 <= j < |sys1.invocations| :: Claims(sys1.invocations[j], k)
    {
      var j :| 0 <= j < |sys.invocations| && Claims(sys.invocations[j], k);
      assert Claims(sys1.invocations[j], k);
    }
  }

  /** The sweep moves the sessions that accept from the pool to the accepted ones. */
  lemma SweepKeeps(sys: System, swept: seq<Slot>, reply: Replies)
    requires Inv(sys) && Stable(sys, reply) && |swept| == |sys.custody|
    requires forall k | 0 <= k < |swept| :: swept[k] == SweptSlot(sys.custody[k], reply)
    ensures Inv(sys.(custody := swept, accepted := sys.accepted + Accepting(sys.custody, reply)))
  {
    var sys1 := sys.(custody := swept, accepted := sys.accepted + Accepting(sys.custody, reply));
    forall k | 0 <= k < |swept| && swept[k] == Claimed
      ensures exists j | 0 <= j < |sys1.invocations| :: Claims(sys1.invocations[j], k)
    {
      assert sys.custody[k] == Claimed;
    }
    forall s | s in sys1.home && s !in sys1.accepted
      ensures sys1.custody[sys1.home[s]] == Retained(s)
    {
      assert sys.custody[sys.home[s]] == Retained(s);
    }
    forall s | s in Accepting(sys.custody, reply)
      ensures s in sys.home
    {
      var k :| 0 <= k < |sys.custody| && sys.custody[k].Retained? && reply(sys.custody[k].session).ResourcesReleased?
               && s == sys.custody[k].session;
    }
    forall k | 0 <= k < |swept| && swept[k].Retained?
      ensures swept[k].session !in Accepting(sys.custody, reply)
    {
      assert sys.custody[k] == swept[k];
    }
  }

  lemma TakeKeeps(sys: System, i: nat, slot: nat)
    requires Inv(sys) && i < |sys.invocations| && sys.invocations[i].Entered?
    requires slot < |sys.custody| && sys.custody[slot] == Vacant
    ensures Inv(At(sys.(custody := sys.custody[slot := Claimed]), i, Holding(slot)))
  {
    var sys1 := At(sys.(custody := sys.custody[slot := Claimed]), i, Holding(slot));
    forall k | 0 <= k < |sys1.custody| && sys1.custody[k] == Claimed
      ensures exists j | 0 <= j < |sys1.invocations| :: Claims(sys1.invocations[j], k)
    {
      if k == slot {
        assert Claims(sys1.invocations[i], k);
      } else {
        var j :| 0 <= j < |sys.invocations| && Claims(sys.invocations[j], k);
        assert Claims(sys1.invocations[j], k);
      }
    }
  }

  lemma ClaimKeeps(sys: System, i: nat, reply: Replies)
    requires Inv(sys) && Possible(sys, Event.Claim(i, reply))
    ensures Inv(Next(sys, Event.Claim(i, reply)))
  {
    SweepMeans(sys.custody, |sys.custody|, reply);
    var swept := SweepSpec(sys.custody, |sys.custody|, reply);
    SweepKeeps(sys, swept, reply);
    var mid := sys.(custody := swept, accepted := sys.accepted + Accepting(sys.custody, reply));
    match FirstVacant(swept, 0) {
      case None => MovesOn(mid, i, Finished);
      case Some(slot) => TakeKeeps(mid, i, slot);
    }
  }

  lemma ReleaseKeeps(sys: System, i: nat, reply: Replies)
    requires Inv(sys) && Possible(sys, Event.Release(i, reply))
    ensures Inv(Next(sys, Event.Release(i, reply)))
  {
    var slot, session := sys.invocations[i].slot, sys.invocations[i].session;
    ReleaseByKeeps(sys, slot, session, reply);
    MovesOn(ReleaseBy(sys, slot, session, reply), i, Settled(slot, session, !reply(session).ResourcesReleased?));
  }

  lemma FinallyKeeps(sys: System, i: nat, reply: Replies)
    requires Inv(sys) && Possible(sys, Event.Finally(i, reply))
    ensures Inv(Next(sys, Event.Finally(i, reply)))
  {
    var phase := sys.invocations[i];
    if phase.Holding? {
      HoldingFinishes(sys, i);
    } else if phase.Settled? && !phase.ownsSlot {
      MovesOn(sys, i, Finished);
    } else {
      ReleaseByKeeps(sys, phase.slot, phase.session, reply);
      MovesOn(ReleaseBy(sys, phase.slot, phase.session, reply), i, Finished);
    }
  }

  lemma NextKeeps(sys: System, e: Event)
    requires Inv(sys) && Possible(sys, e)
    ensures Inv(Next(sys, e))
  {
    match e {
      case Enter => EnterKeeps(sys);
      case Claim(i, reply) => ClaimKeeps(sys, i, reply);
      case Prepare(i) => PrepareKeeps(sys, i);
      case Register(i) => RegisterKeeps(sys, i);
      case Release(i, reply) => ReleaseKeeps(sys, i, reply);
      case Finally(i, reply) => FinallyKeeps(sys, i, reply);
    }
  }

  // ---------------------------------------------------------------- every interleaving

  ghost predicate PossibleRun(sys: System, events: seq<Event>)
    requires Inv(sys)
    decreases |events|
  {
    |events| == 0 ||
    (Possible(sys, events[0]) && (NextKeeps(sys, events[0]); PossibleRun(Next(sys, events[0]), events[1..])))
  }

  ghost function Run(sys: System, events: seq<Event>): System
    requires Inv(sys) && PossibleRun(sys, events)
    decreases |events|
  {
    if |events| == 0 then sys
    else
      NextKeeps(sys, events[0]);
      Run(Next(sys, events[0]), events[1..])
  }

  lemma {:induction false} InvAlways(sys: System, events: seq<Event>)
    requires Inv(sys) && PossibleRun(sys, events)
    ensures Inv(Run(sys, events))
    decreases |events|
  {
    if |events| > 0 {
      NextKeeps(sys, events[0]);
      InvAlways(Next(sys, events[0]), events[1..]);
    }
  }

  lemma EmptyInv()
    ensures Inv(EMPTY)
  {
  }

  /** The steps of invocations that start from sixteen vacant slots, in any order the code allows. */
  ghost predicate Interleaving(events: seq<Event>) {
    EmptyInv();
    PossibleRun(EMPTY, events)
  }

  ghost function After(events: seq<Event>): System
    requires Interleaving(events)
  {
    EmptyInv();
    Run(EMPTY, events)
  }

  /** Whatever the interleaving: each claimed slot belongs to exactly one invocation, and each registered session that
      has not accepted release is in exactly one slot. */
  lemma ExactCustody(events: seq<Event>)
    requires Interleaving(events)
    ensures
      var sys := After(events);
      && (forall k | 0 <= k < |sys.custody| && sys.custody[k] == Claimed ::
            exists i | 0 <= i < |sys.invocations| :: Claims(sys.invocations[i], k))
      && (forall i, j, k | 0 <= i < |sys.invocations| && 0 <= j < |sys.invocations|
            && Claims(sys.invocations[i], k) && Claims(sys.invocations[j], k) :: i == j)
      && (forall s, k | 0 <= k < |sys.custody| && s in sys.home && s !in sys.accepted ::
            (sys.custody[k] == Retained(s) <==> k == sys.home[s]))
      && (forall k | 0 <= k < |sys.custody| && sys.custody[k].Retained? ::
            sys.custody[k].session in sys.home && sys.custody[k].session !in sys.accepted)
  {
    EmptyInv();
    InvAlways(EMPTY, events);
  }

  /** A release or a cleanup by an invocation alters no slot but its own: one it holds, or one that still retains the
      session it prepared. So a slot emptied by another claimer and taken since by someone else is left alone. */
  lemma OthersSlotsUntouched(sys: System, e: Event, k: nat)
    requires Inv(sys) && Possible(sys, e) && (e.Release? || e.Finally?) && k < |sys.custody|
    requires Next(sys, e).custody[k] != sys.custody[k]
    ensures
      var phase := sys.invocations[e.i];
      && phase.slot == k && Next(sys, e).custody[k] == Vacant
      && (phase.Holding? || sys.custody[k] == Retained(phase.session))
      && forall j | 0 <= j < |sys.invocations| && j != e.i :: !Claims(sys.invocations[j], k)
  {
    var phase := sys.invocations[e.i];
    forall j | 0 <= j < |sys.invocations| && j != e.i
      ensures !Claims(sys.invocations[j], k)
    {
      if phase.Holding? && j < e.i && (sys.invocations[j].Holding? || sys.invocations[j].Prepared?) {
        assert !Claims(sys.invocations[e.i], sys.invocations[j].slot);
      }
    }
  }

  /** Nothing leaks: when every invocation has finished, no slot is claimed, and each slot that is not vacant holds a
      session that has yet to accept release. */
  lemma NothingLeaks(sys: System, k: nat)
    requires Inv(sys) && k < |sys.custody|
    requires forall i | 0 <= i < |sys.invocations| :: sys.invocations[i].Finished?
    ensures sys.custody[k] != Claimed
    ensures sys.custody[k] == Vacant || sys.custody[k].session !in sys.accepted
  {
    assert sys.custody[k] == Claimed ==> exists i | 0 <= i < |sys.invocations| :: Claims(sys.invocations[i], k);
  }

  // ---------------------------------------------------------------- the admission bound

  function Retainees(custody: seq<Slot>): set<Session> {
    set k | 0 <= k < |custody| && custody[k].Retained? :: custody[k].session
  }

  function ClaimedCount(custody: seq<Slot>): nat {
    if |custody| == 0 then 0
    else ClaimedCount(custody[..|custody| - 1]) + if custody[|custody| - 1] == Claimed then 1 else 0
  }

  lemma {:induction false} SlotsBound(custody: seq<Slot>)
    ensures |Retainees(custody)| + ClaimedCount(custody) <= |custody|
  {
    if |custody| > 0 {
      var before, last := custody[..|custody| - 1], custody[|custody| - 1];
      SlotsBound(before);
      assert custody == before + [last];
      RetaineesStep(before, last);
    }
  }

  lemma RetaineesStep(before: seq<Slot>, last: Slot)
    ensures Retainees(before + [last]) == Retainees(before) + if last.Retained? then {last.session} else {}
  {
    var after := before + [last];
    assert after[|before|] == last;
    forall s | s in Retainees(before)
      ensures s in Retainees(after)
    {
      var k :| 0 <= k < |before| && before[k] == Retained(s);
      assert after[k] == Retained(s);
    }
    forall s | s in Retainees(after)
      ensures s in Retainees(before) || last == Retained(s)
    {
      var k :| 0 <= k < |after| && after[k] == Retained(s);
      assert k < |before| ==> before[k] == Retained(s);
    }
  }

  /** The sessions not yet released and the slots claimed are never more than the pool has slots. */
  lemma AdmissionBound(sys: System)
    requires Inv(sys)
    ensures |sys.home.Keys - sys.accepted| + ClaimedCount(sys.custody) <= CAPACITY
  {
    SlotsBound(sys.custody);
    forall s | s in sys.home.Keys - sys.accepted
      ensures s in Retainees(sys.custody)
    {
      assert sys.custody[sys.home[s]] == Retained(s);
    }
    assert sys.home.Keys - sys.accepted == Retainees(sys.custody);
  }

  /** A claim fails exactly when each of the sixteen slots is claimed or holds a session that does not accept now. */
  lemma ClaimFailsOnlyWhenFull(sys: System, i: nat, reply: Replies)
    requires Inv(sys) && Possible(sys, Event.Claim(i, reply))
    ensures
      Next(sys, Event.Claim(i, reply)).invocations[i] == Finished <==>
      (forall k | 0 <= k < CAPACITY :: Occupied(sys.custody[k], reply))
    ensures forall k | 0 <= k < CAPACITY && Occupied(sys.custody[k], reply) ::
      Next(sys, Event.Claim(i, reply)).custody[k] == sys.custody[k]
  {
    ClaimMeans(sys.custody, reply);
  }
}
