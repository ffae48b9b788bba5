/** Correction planning: a missed event is inserted and the history after it replayed, in order of business time. */
module Correction {
  import Sorting

  datatype Event = Event(op: string, at: int, epoch: int, version: int)

  datatype Belief = Belief(at: int, amount: int, epoch: int, version: int, command: int)

  datatype Plan = Plan(
    outcome: string, errorEpoch: int, amount: int, closed: bool, replayed: seq<int>, versions: seq<int>,
    beliefs: seq<Belief>, hypothetical: seq<string>, committed: seq<string>, truncated: int, fromAmount: int)

  /** How planning ends before any replay. */
  datatype Precheck = Proceed | BudgetExceeded | UnknownCurrent | InsertedDiverges

  /** The tables of the scenarios as parameters: the history, the state after the inserted event, what was inserted and
      under which epoch, version and command, and the policy on divergence. */
  datatype Setup = Setup(
    suffix: seq<Event>, precheck: Precheck, start: int, closed: bool, op: string, at: int, epoch: int, version: int,
    command: int, fromAmount: int, truncate: bool)

  const UNKNOWN_VERSION: int := 3
  const LIMIT: int := 20

  function Empty(s: Setup, outcome: string, epoch: int): Plan {
    Plan(outcome, epoch, -1, false, [], [], [], [], [], 0, s.fromAmount)
  }

  // ---------------------------------------------------------------- ordering

  predicate Before(a: Event, b: Event) {
    a.at < b.at || (a.at == b.at && a.epoch < b.epoch)
  }

  /** `sorted.select(x => before(x, e) == wanted)` */
  function Select(sorted: seq<Event>, e: Event, wanted: bool): seq<Event> {
    if |sorted| == 0 then []
    else
      var last := sorted[|sorted| - 1];
      Select(sorted[..|sorted| - 1], e, wanted) + if Before(last, e) == wanted then [last] else []
  }

  function Insert(sorted: seq<Event>, e: Event): seq<Event> {
    Select(sorted, e, true) + [e] + Select(sorted, e, false)
  }

  function Ordered(events: seq<Event>): seq<Event> {
    if |events| == 0 then [] else Insert(Ordered(events[..|events| - 1]), events[|events| - 1])
  }

  predicate Sorted(events: seq<Event>) {
    forall i, j | 0 <= i < j < |events| :: !Before(events[j], events[i])
  }

  predicate SameKey(a: Event, b: Event) {
    a.at == b.at && a.epoch == b.epoch
  }

  predicate DistinctKeys(events: seq<Event>) {
    forall i, j | 0 <= i < j < |events| :: !SameKey(events[i], events[j])
  }

  lemma {:induction false} SelectMember(sorted: seq<Event>, e: Event, wanted: bool, x: Event)
    requires x in Select(sorted, e, wanted)
    ensures x in sorted && Before(x, e) == wanted
  {
    var before := sorted[..|sorted| - 1];
    if x in Select(before, e, wanted) {
      SelectMember(before, e, wanted, x);
    }
  }

  lemma {:induction false} SelectSorted(sorted: seq<Event>, e: Event, wanted: bool)
    requires Sorted(sorted)
    ensures Sorted(Select(sorted, e, wanted))
  {
    if |sorted| > 0 {
      var before, last := sorted[..|sorted| - 1], sorted[|sorted| - 1];
      SelectSorted(before, e, wanted);
      forall x | x in Select(before, e, wanted)
        ensures !Before(last, x)
      {
        SelectMember(before, e, wanted, x);
        LastNotBefore(sorted, x);
      }
    }
  }

  lemma LastNotBefore(sorted: seq<Event>, x: Event)
    requires Sorted(sorted) && x in sorted
    ensures !Before(sorted[|sorted| - 1], x)
  {
    var i :| 0 <= i < |sorted| && sorted[i] == x;
  }

  lemma {:induction false} SelectPermutes(sorted: seq<Event>, e: Event)
    ensures multiset(Select(sorted, e, true)) + multiset(Select(sorted, e, false)) == multiset(sorted)
  {
    if |sorted| > 0 {
      var before, last := sorted[..|sorted| - 1], sorted[|sorted| - 1];
      assert sorted == before + [last];
      SelectPermutes(before, e);
    }
  }

  lemma InsertSorted(sorted: seq<Event>, e: Event)
    requires Sorted(sorted)
    ensures Sorted(Insert(sorted, e))
  {
    SelectSorted(sorted, e, true);
    SelectSorted(sorted, e, false);
    var a, b := Select(sorted, e, true), Select(sorted, e, false);
    forall x | x in a
      ensures Before(x, e)
    {
      SelectMember(sorted, e, true, x);
    }
    forall x | x in b
      ensures !Before(x, e)
    {
      SelectMember(sorted, e, false, x);
    }
    JoinSorted(a, e, b);
  }

  lemma JoinSorted(a: seq<Event>, e: Event, b: seq<Event>)
    requires Sorted(a) && Sorted(b)
    requires (forall x | x in a :: Before(x, e)) && forall x | x in b :: !Before(x, e)
    ensures Sorted(a + [e] + b)
  {
    var r := a + [e] + b;
    forall i, j | 0 <= i < j < |r|
      ensures !Before(r[j], r[i])
    {
      assert i < |a| ==> r[i] in a;
      assert j > |a| ==> r[j] == b[j - |a| - 1] && r[j] in b;
      assert i > |a| ==> r[i] == b[i - |a| - 1] && r[i] in b;
    }
  }

  lemma InsertPermutes(sorted: seq<Event>, e: Event)
    ensures multiset(Insert(sorted, e)) == multiset(sorted) + multiset{e}
  {
    SelectPermutes(sorted, e);
  }

  lemma {:induction false} OrderedSorted(events: seq<Event>)
    ensures Sorted(Ordered(events))
  {
    if |events| > 0 {
      OrderedSorted(events[..|events| - 1]);
      InsertSorted(Ordered(events[..|events| - 1]), events[|events| - 1]);
    }
  }

  lemma {:induction false} OrderedPermutes(events: seq<Event>)
    ensures multiset(Ordered(events)) == multiset(events)
  {
    if |events| > 0 {
      var before, e := events[..|events| - 1], events[|events| - 1];
      OrderedPermutes(before);
      InsertPermutes(Ordered(before), e);
      LastOut(events);
    }
  }

  lemma LastOut(events: seq<Event>)
    requires |events| > 0
    ensures multiset(events) == multiset(events[..|events| - 1]) + multiset{events[|events| - 1]}
  {
    assert events == events[..|events| - 1] + [events[|events| - 1]];
  }

  /** The order is a sorted permutation of the events. */
  lemma OrderedSorts(events: seq<Event>)
    ensures Sorted(Ordered(events)) && multiset(Ordered(events)) == multiset(events)
  {
    OrderedSorted(events);
    OrderedPermutes(events);
  }

  lemma KeyIsUnique(a: seq<Event>, x: Event, y: Event)
    requires DistinctKeys(a) && x in a && y in a && SameKey(x, y)
    ensures x == y
  {
    var i :| 0 <= i < |a| && a[i] == x;
    var j :| 0 <= j < |a| && a[j] == y;
    assert SameKey(a[i], a[j]) && SameKey(a[j], a[i]);
  }

  /** Two sorted permutations end alike. */
  lemma SameLast(a: seq<Event>, b: seq<Event>)
    requires |a| > 0 && Sorted(a) && Sorted(b) && DistinctKeys(a) && multiset(a) == multiset(b)
    ensures |b| == |a| && b[|b| - 1] == a[|a| - 1]
  {
    Sorting.SameMembers(a, b);
    var x, y := a[|a| - 1], b[|b| - 1];
    assert x in b && y in a;
    LastNotBefore(a, y);
    LastNotBefore(b, x);
    KeyIsUnique(a, x, y);
  }

  lemma DropLast(a: seq<Event>, b: seq<Event>)
    requires |a| == |b| > 0 && a[|a| - 1] == b[|b| - 1] && multiset(a) == multiset(b)
    ensures multiset(a[..|a| - 1]) == multiset(b[..|b| - 1])
  {
    LastOut(a);
    LastOut(b);
    assert multiset(a[..|a| - 1]) == multiset(a) - multiset{a[|a| - 1]};
    assert multiset(b[..|b| - 1]) == multiset(b) - multiset{b[|b| - 1]};
  }

  /** With distinct keys there is one sorted permutation. */
  lemma {:induction false} SortedUnique(a: seq<Event>, b: seq<Event>)
    requires Sorted(a) && Sorted(b) && DistinctKeys(a) && multiset(a) == multiset(b)
    ensures a == b
  {
    Sorting.SameMembers(a, b);
    if |a| > 0 {
      SameLast(a, b);
      DropLast(a, b);
      var n := |a| - 1;
      SortedUnique(a[..n], b[..n]);
      assert a == a[..n] + [a[n]] && b == b[..n] + [b[n]];
    }
  }

  lemma DistinctAnyOrder(a: seq<Event>, b: seq<Event>)
    requires DistinctKeys(a) && multiset(a) == multiset(b)
    ensures DistinctKeys(b)
  {
    Sorting.SameMembers(a, b);
    forall i, j | 0 <= i < j < |b|
      ensures !SameKey(b[i], b[j])
    {
      assert b[i] in a && b[j] in a;
      var k :| 0 <= k < |a| && a[k] == b[i];
      var l :| 0 <= l < |a| && a[l] == b[j];
      if k == l {
        TwiceInB(b, i, j);
        OnceInA(a, k);
      } else if k < l {
        assert !SameKey(a[k], a[l]);
      } else {
        assert !SameKey(a[l], a[k]);
      }
    }
  }

  lemma TwiceInB(b: seq<Event>, i: nat, j: nat)
    requires i < j < |b| && b[i] == b[j]
    ensures multiset(b)[b[i]] >= 2
  {
    assert b == b[..i] + [b[i]] + b[i + 1..j] + [b[j]] + b[j + 1..];
  }

  lemma OnceInA(a: seq<Event>, k: nat)
    requires DistinctKeys(a) && k < |a|
    ensures multiset(a)[a[k]] == 1
  {
    assert a == a[..k] + [a[k]] + a[k + 1..];
    assert a[k] !in a[..k];
    assert a[k] !in a[k + 1..];
  }

  /** So with distinct keys the order does not depend on how the history was listed. */
  lemma OrderedIsTheSort(events: seq<Event>, other: seq<Event>)
    requires DistinctKeys(events) && Sorted(other) && multiset(other) == multiset(events)
    ensures Ordered(events) == other
  {
    OrderedSorts(events);
    DistinctAnyOrder(events, other);
    SortedUnique(other, Ordered(events));
  }

  /** Without distinct keys it does: two events with the same key change places. */
  lemma TiesAreReversed(a: Event, b: Event)
    requires SameKey(a, b)
    ensures Ordered([a, b]) == [b, a]
  {
    assert [a, b][..1] == [a] && [a][..0] == [];
    assert Ordered([]) == [];
    assert Ordered([a]) == [] + [a] + [];
    assert Select([], b, true) == [] && Select([], b, false) == [];
    assert Select([a], b, true) == [] + [];
    assert Select([a], b, false) == [] + [a];
    assert Ordered([a, b]) == Insert([a], b);
  }

  // ---------------------------------------------------------------- replay

  function ApplyEvent(amount: int, op: string, version: int): int {
    if op == "credit" then amount + (if version == 2 then 10 else 1)
    else if op == "double" then amount * 2
    else amount
  }

  function AppendBelief(bs: seq<Belief>, b: Belief): (r: seq<Belief>)
    ensures |r| > 0
  {
    if |bs| > 0 && bs[|bs| - 1].at == b.at then bs[..|bs| - 1] + [b] else bs + [b]
  }

  function Inserted(s: Setup): Plan {
    Empty(s, "Planned", 0).(
      amount := s.start, closed := s.closed, hypothetical := [s.op],
      beliefs := [Belief(s.at, s.start, s.epoch, s.version, s.command)])
  }

  function Step(s: Setup, p: Plan, e: Event): Plan {
    if p.outcome != "Planned" || p.truncated != 0 then p
    else if e.version == UNKNOWN_VERSION then Empty(s, "UnknownChartVersion", 0)
    else if p.closed || (e.op == "check" && p.amount >= LIMIT) then
      if s.truncate then p.(truncated := e.epoch) else Empty(s, "Diverged", e.epoch)
    else
      var amount := ApplyEvent(p.amount, e.op, e.version);
      p.(amount := amount, replayed := p.replayed + [e.epoch], versions := p.versions + [e.version],
         hypothetical := p.hypothetical + [e.op],
         beliefs := AppendBelief(p.beliefs, Belief(e.at, amount, e.epoch, e.version, e.epoch)))
  }

  function Folded(s: Setup, events: seq<Event>): Plan {
    if |events| == 0 then Inserted(s) else Step(s, Folded(s, events[..|events| - 1]), events[|events| - 1])
  }

  /** The last belief is attributed to the correction. */
  function Attributed(s: Setup, beliefs: seq<Belief>): (r: seq<Belief>)
    requires |beliefs| > 0
    ensures |r| == |beliefs|
  {
    beliefs[|beliefs| - 1 := beliefs[|beliefs| - 1].(epoch := s.epoch, version := s.version, command := s.command)]
  }

  /** `plan` */
  function PlanOf(s: Setup): Plan {
    match s.precheck
    case BudgetExceeded => Empty(s, "BudgetExceeded", 0)
    case UnknownCurrent => Empty(s, "UnknownChartVersion", 0)
    case InsertedDiverges => Empty(s, "Diverged", s.epoch)
    case Proceed =>
      var folded := Folded(s, Ordered(s.suffix));
      if folded.outcome != "Planned" || |folded.beliefs| == 0 then folded
      else folded.(beliefs := Attributed(s, folded.beliefs))
  }

  // ---------------------------------------------------------------- what a replay does

  function Amount(start: int, events: seq<Event>): int {
    if |events| == 0 then start
    else ApplyEvent(Amount(start, events[..|events| - 1]), events[|events| - 1].op, events[|events| - 1].version)
  }

  function Beliefs(s: Setup, events: seq<Event>): (r: seq<Belief>)
    ensures |r| > 0
  {
    if |events| == 0 then [Belief(s.at, s.start, s.epoch, s.version, s.command)]
    else
      var e := events[|events| - 1];
      AppendBelief(
        Beliefs(s, events[..|events| - 1]), Belief(e.at, Amount(s.start, events), e.epoch, e.version, e.epoch))
  }

  function Epochs(events: seq<Event>): seq<int> {
    seq(|events|, i requires 0 <= i < |events| => events[i].epoch)
  }

  function Versions(events: seq<Event>): seq<int> {
    seq(|events|, i requires 0 <= i < |events| => events[i].version)
  }

  function Ops(events: seq<Event>): seq<string> {
    seq(|events|, i requires 0 <= i < |events| => events[i].op)
  }

  /** The plan that replays exactly the events. */
  function Straight(s: Setup, events: seq<Event>): Plan {
    Plan("Planned", 0, Amount(s.start, events), s.closed, Epochs(events), Versions(events), Beliefs(s, events),
         [s.op] + Ops(events), [], 0, s.fromAmount)
  }

  /** The `k`-th event cannot be replayed on the amount the events before it leave. */
  predicate Diverges(s: Setup, events: seq<Event>, k: nat)
    requires k < |events|
  {
    s.closed || (events[k].op == "check" && Amount(s.start, events[..k]) >= LIMIT)
  }

  predicate Stops(s: Setup, events: seq<Event>, k: nat)
    requires k < |events|
  {
    events[k].version == UNKNOWN_VERSION || Diverges(s, events, k)
  }

  /** Where a replay that cannot pass the `k`-th event is left. */
  function StoppedAt(s: Setup, events: seq<Event>, k: nat): Plan
    requires k < |events|
  {
    if events[k].version == UNKNOWN_VERSION then Empty(s, "UnknownChartVersion", 0)
    else if s.truncate then Straight(s, events[..k]).(truncated := events[k].epoch)
    else Empty(s, "Diverged", events[k].epoch)
  }

  lemma StraightStep(s: Setup, events: seq<Event>)
    requires |events| > 0 && !Stops(s, events, |events| - 1)
    ensures Step(s, Straight(s, events[..|events| - 1]), events[|events| - 1]) == Straight(s, events)
  {
    var before, e := events[..|events| - 1], events[|events| - 1];
    assert events == before + [e];
    assert Epochs(events) == Epochs(before) + [e.epoch];
    assert Versions(events) == Versions(before) + [e.version];
    assert [s.op] + Ops(events) == [s.op] + Ops(before) + [e.op];
  }

  lemma {:induction false} FoldsStraight(s: Setup, events: seq<Event>, k: nat)
    requires k <= |events| && forall j: nat | j < k :: !Stops(s, events, j)
    ensures Folded(s, events[..k]) == Straight(s, events[..k])
  {
    if k == 0 {
      assert Epochs([]) == [] && Versions([]) == [] && [s.op] + Ops([]) == [s.op];
      assert events[..0] == [];
    } else {
      FoldsStraight(s, events, k - 1);
      assert events[..k][..k - 1] == events[..k - 1];
      SamePrefixStops(s, events, k - 1, k);
      StraightStep(s, events[..k]);
    }
  }

  lemma SamePrefixStops(s: Setup, events: seq<Event>, j: nat, k: nat)
    requires j < k <= |events|
    ensures Stops(s, events[..k], j) <==> Stops(s, events, j)
  {
    assert events[..k][..j] == events[..j];
  }

  lemma {:induction false} FoldsStopped(s: Setup, events: seq<Event>, stop: nat, k: nat)
    requires stop < k <= |events| && Stops(s, events, stop) && forall j: nat | j < stop :: !Stops(s, events, j)
    requires s.truncate ==> events[stop].epoch != 0
    ensures Folded(s, events[..k]) == StoppedAt(s, events, stop)
  {
    assert events[..k][..k - 1] == events[..k - 1];
    if k == stop + 1 {
      FoldsStraight(s, events, stop);
    } else {
      FoldsStopped(s, events, stop, k - 1);
    }
  }

  /** The first event that stops the replay, if any. */
  lemma {:induction false} FirstStop(s: Setup, events: seq<Event>, k: nat) returns (stop: nat)
    requires k <= |events| && forall j: nat | j < k :: !Stops(s, events, j)
    ensures k <= stop <= |events| && (forall j: nat | j < stop :: !Stops(s, events, j))
    ensures stop < |events| ==> Stops(s, events, stop)
    decreases |events| - k
  {
    if k == |events| || Stops(s, events, k) {
      stop := k;
    } else {
      stop := FirstStop(s, events, k + 1);
    }
  }

  predicate EpochsNonzero(events: seq<Event>) {
    forall i | 0 <= i < |events| :: events[i].epoch != 0
  }

  /** The fold replays the events up to the first that cannot be, and is then left where that one leaves it. */
  lemma FoldMeans(s: Setup, events: seq<Event>) returns (stop: nat)
    requires s.truncate ==> EpochsNonzero(events)
    ensures stop <= |events| && (forall j: nat | j < stop :: !Stops(s, events, j))
    ensures stop < |events| ==> Stops(s, events, stop) && Folded(s, events) == StoppedAt(s, events, stop)
    ensures stop == |events| ==> Folded(s, events) == Straight(s, events)
  {
    stop := FirstStop(s, events, 0);
    assert events[..|events|] == events;
    if stop < |events| {
      FoldsStopped(s, events, stop, |events|);
    } else {
      FoldsStraight(s, events, stop);
    }
  }

  /** Under the truncating policy an event that diverges ends the replay, whatever follows, exactly when its epoch is
      not zero: the mark of truncation is the epoch itself. */
  lemma TruncationNeedsEpoch(s: Setup, p: Plan, e: Event)
    requires s.truncate && p.outcome == "Planned" && p.truncated == 0 && e.version != UNKNOWN_VERSION
    requires p.closed || (e.op == "check" && p.amount >= LIMIT)
    ensures (forall next :: Step(s, Step(s, p, e), next) == Step(s, p, e)) <==> e.epoch != 0
  {
    if e.epoch == 0 {
      var next := Event("credit", e.at, 1, 1);
      var q := Step(s, Step(s, p, e), next);
      if !p.closed {
        assert |q.replayed| == |p.replayed| + 1;
      }
    }
  }

  // ---------------------------------------------------------------- amounts

  function Doublings(events: seq<Event>): nat {
    if |events| == 0 then 0 else (if events[0].op == "double" then 1 else 0) + Doublings(events[1..])
  }

  function PowerOfTwo(n: nat): nat {
    if n == 0 then 1 else 2 * PowerOfTwo(n - 1)
  }

  /** What a credit is worth under the version it is replayed with. */
  function Worth(e: Event): nat {
    if e.op != "credit" then 0 else if e.version == 2 then 10 else 1
  }

  /** The credits, each doubled as often as a doubling follows it. */
  function Credited(events: seq<Event>): nat {
    if |events| == 0 then 0 else Worth(events[0]) * PowerOfTwo(Doublings(events[1..])) + Credited(events[1..])
  }

  lemma {:induction false} AmountFromFront(start: int, events: seq<Event>)
    requires |events| > 0
    ensures Amount(start, events) == Amount(ApplyEvent(start, events[0].op, events[0].version), events[1..])
    decreases |events|
  {
    if |events| == 1 {
      assert events[..0] == [] && events[1..] == [];
    } else {
      var n := |events| - 1;
      AmountFromFront(start, events[..n]);
      assert events[1..][..n - 1] == events[..n][1..];
    }
  }

  /** In closed form: the start and every credit, doubled as often as a doubling follows it. */
  lemma {:induction false} AmountInClosedForm(start: int, events: seq<Event>)
    ensures Amount(start, events) == start * PowerOfTwo(Doublings(events)) + Credited(events)
    decreases |events|
  {
    if |events| > 0 {
      var rest := PowerOfTwo(Doublings(events[1..]));
      AmountFromFront(start, events);
      AmountInClosedForm(ApplyEvent(start, events[0].op, events[0].version), events[1..]);
      Distribute(start, Worth(events[0]), rest);
    }
  }

  lemma Distribute(start: int, worth: int, rest: int)
    ensures (start + worth) * rest == start * rest + worth * rest && (start * 2) * rest == start * (2 * rest)
  {
  }

  // ---------------------------------------------------------------- beliefs

  predicate Increasing(beliefs: seq<Belief>) {
    forall i | 0 < i < |beliefs| :: beliefs[i - 1].at < beliefs[i].at
  }

  predicate NotEarlier(events: seq<Event>, at: int) {
    forall i | 0 <= i < |events| :: events[i].at >= at
  }

  predicate ByInstant(events: seq<Event>) {
    forall i, j | 0 <= i < j < |events| :: events[i].at <= events[j].at
  }

  lemma SortedByInstant(events: seq<Event>)
    requires Sorted(events)
    ensures ByInstant(events)
  {
    forall i, j | 0 <= i < j < |events|
      ensures events[i].at <= events[j].at
    {
      assert !Before(events[j], events[i]);
    }
  }

  function LastInstant(s: Setup, events: seq<Event>): int {
    if |events| == 0 then s.at else events[|events| - 1].at
  }

  lemma {:induction false} BeliefsEnd(s: Setup, events: seq<Event>)
    ensures
      var last := Beliefs(s, events)[|Beliefs(s, events)| - 1];
      && last.at == LastInstant(s, events) && last.amount == Amount(s.start, events)
  {
  }

  lemma AppendIncreasing(bs: seq<Belief>, b: Belief)
    requires |bs| > 0 && Increasing(bs) && bs[|bs| - 1].at <= b.at
    ensures Increasing(AppendBelief(bs, b))
  {
  }

  lemma {:induction false} BeliefsIncrease(s: Setup, events: seq<Event>)
    requires ByInstant(events) && NotEarlier(events, s.at)
    ensures Increasing(Beliefs(s, events))
  {
    if |events| > 0 {
      var before, e := events[..|events| - 1], events[|events| - 1];
      BeliefsIncrease(s, before);
      BeliefsEnd(s, before);
      assert LastInstant(s, before) <= e.at;
      AppendIncreasing(Beliefs(s, before), Belief(e.at, Amount(s.start, events), e.epoch, e.version, e.epoch));
    }
  }

  /** The second belief is earlier than the first, whatever is replayed after an event earlier than the inserted one. */
  predicate StartsBackwards(bs: seq<Belief>) {
    |bs| >= 2 && bs[1].at < bs[0].at
  }

  lemma {:induction false} EarlierEventGoesBackwards(s: Setup, events: seq<Event>)
    requires |events| > 0 && events[0].at < s.at
    ensures StartsBackwards(Beliefs(s, events))
  {
    if |events| == 1 {
      assert events[..0] == [];
    } else {
      EarlierEventGoesBackwards(s, events[..|events| - 1]);
    }
  }

  /** Belief instants strictly increase exactly when no replayed event is earlier than the inserted one. */
  lemma BeliefsIncreaseExactly(s: Setup, events: seq<Event>)
    requires ByInstant(events)
    ensures Increasing(Beliefs(s, events)) <==> NotEarlier(events, s.at)
  {
    if NotEarlier(events, s.at) {
      BeliefsIncrease(s, events);
    } else {
      var i :| 0 <= i < |events| && events[i].at < s.at;
      assert events[0].at <= events[i].at;
      EarlierEventGoesBackwards(s, events);
      assert !(Beliefs(s, events)[1 - 1].at < Beliefs(s, events)[1].at);
    }
  }

  /** The belief in force at an instant: the last one at or before it. */
  function AsOf(beliefs: seq<Belief>, t: int): (r: seq<Belief>)
    ensures |r| <= 1
  {
    if |beliefs| == 0 then []
    else if beliefs[|beliefs| - 1].at <= t then [beliefs[|beliefs| - 1]]
    else AsOf(beliefs[..|beliefs| - 1], t)
  }

  /** The events at or before an instant. */
  function UpTo(events: seq<Event>, t: int): seq<Event> {
    if |events| == 0 then []
    else UpTo(events[..|events| - 1], t) + if events[|events| - 1].at <= t then [events[|events| - 1]] else []
  }

  predicate NotLater(events: seq<Event>, t: int) {
    forall i | 0 <= i < |events| :: events[i].at <= t
  }

  lemma {:induction false} UpToAll(events: seq<Event>, t: int)
    requires NotLater(events, t)
    ensures UpTo(events, t) == events
  {
    if |events| > 0 {
      var n := |events| - 1;
      UpToAll(events[..n], t);
      assert UpTo(events, t) == events[..n] + [events[n]];
    }
  }

  /** The amount in force, if any belief is. */
  predicate Carries(beliefs: seq<Belief>, t: int, amount: int) {
    |AsOf(beliefs, t)| == 1 && AsOf(beliefs, t)[0].amount == amount
  }

  lemma AsOfEarlier(bs: seq<Belief>, b: Belief, t: int)
    requires t < b.at
    ensures AsOf(AppendBelief(bs, b), t) == AsOf(bs, t)
  {
    if |bs| > 0 && bs[|bs| - 1].at == b.at {
      assert (bs[..|bs| - 1] + [b])[..|bs| - 1] == bs[..|bs| - 1];
    } else {
      assert (bs + [b])[..|bs|] == bs;
    }
  }

  /** Compaction loses no meaning: at every instant from the inserted one on, the belief in force carries the amount
      that folding all replayed events up to that instant gives; before it there is none. */
  lemma {:induction false} AsOfSurvivesCompaction(s: Setup, events: seq<Event>, t: int)
    requires ByInstant(events) && NotEarlier(events, s.at)
    ensures t >= s.at ==> Carries(Beliefs(s, events), t, Amount(s.start, UpTo(events, t)))
    ensures t < s.at ==> AsOf(Beliefs(s, events), t) == []
  {
    if |events| > 0 {
      var e := events[|events| - 1];
      if t < e.at {
        AsOfSurvivesCompaction(s, events[..|events| - 1], t);
        LaterEventUnseen(s, events, t);
      } else {
        AllSeen(s, events, t);
      }
    } else {
      assert Beliefs(s, events)[..0] == [];
    }
  }

  /** From its last instant on, the last belief carries the amount of all the events. */
  lemma AllSeen(s: Setup, events: seq<Event>, t: int)
    requires ByInstant(events) && NotEarlier(events, s.at) && |events| > 0 && events[|events| - 1].at <= t
    ensures t >= s.at && Carries(Beliefs(s, events), t, Amount(s.start, UpTo(events, t)))
  {
    BeliefsEnd(s, events);
    UpToAll(events, t);
  }

  lemma LaterEventUnseen(s: Setup, events: seq<Event>, t: int)
    requires |events| > 0 && t < events[|events| - 1].at
    ensures AsOf(Beliefs(s, events), t) == AsOf(Beliefs(s, events[..|events| - 1]), t)
    ensures UpTo(events, t) == UpTo(events[..|events| - 1], t)
  {
    var e := events[|events| - 1];
    AsOfEarlier(
      Beliefs(s, events[..|events| - 1]), Belief(e.at, Amount(s.start, events), e.epoch, e.version, e.epoch), t);
  }

  lemma AttributedAsOf(s: Setup, beliefs: seq<Belief>, t: int, amount: int)
    requires |beliefs| > 0
    ensures Carries(Attributed(s, beliefs), t, amount) <==> Carries(beliefs, t, amount)
    ensures Increasing(Attributed(s, beliefs)) <==> Increasing(beliefs)
    ensures AsOf(Attributed(s, beliefs), t) == [] <==> AsOf(beliefs, t) == []
  {
    var after := Attributed(s, beliefs);
    assert after[..|after| - 1] == beliefs[..|beliefs| - 1];
    forall i | 0 <= i < |after|
      ensures after[i].at == beliefs[i].at
    {
    }
  }

  // ---------------------------------------------------------------- the plan

  /** The plan replays the first `stop` events under their recorded versions, in full or up to one that diverges. */
  predicate Replays(s: Setup, p: Plan, events: seq<Event>, stop: nat) {
    && stop <= |events| && (forall j: nat | j < stop :: !Stops(s, events, j))
    && p.replayed == Epochs(events[..stop]) && p.versions == Versions(events[..stop])
    && p.amount == Amount(s.start, events[..stop]) && p.hypothetical == [s.op] + Ops(events[..stop])
    && p.committed == [] && p.beliefs == Attributed(s, Beliefs(s, events[..stop]))
    && (p.truncated == 0 <==> stop == |events|)
    && (stop < |events| ==> s.truncate && Diverges(s, events, stop) && p.truncated == events[stop].epoch)
  }

  lemma OrderedEpochs(events: seq<Event>)
    requires EpochsNonzero(events)
    ensures EpochsNonzero(Ordered(events))
  {
    OrderedSorts(events);
    Sorting.SameMembers(Ordered(events), events);
    forall i | 0 <= i < |Ordered(events)|
      ensures Ordered(events)[i].epoch != 0
    {
      assert Ordered(events)[i] in events;
    }
  }

  lemma FoldReplays(s: Setup, events: seq<Event>) returns (stop: nat)
    requires (s.truncate ==> EpochsNonzero(events)) && Folded(s, events).outcome == "Planned"
    ensures
      var folded := Folded(s, events);
      |folded.beliefs| > 0 && Replays(s, folded.(beliefs := Attributed(s, folded.beliefs)), events, stop)
  {
    stop := FoldMeans(s, events);
    assert stop == |events| ==> events[..stop] == events;
  }

  /** Every plan proposed replays a first part of the ordered history under the recorded versions, in full unless it is
      truncated at an event that diverges; it proposes no effects; and its last belief is the correction's own. */
  lemma PlannedMeans(s: Setup) returns (stop: nat)
    requires (s.truncate ==> EpochsNonzero(s.suffix)) && PlanOf(s).outcome == "Planned"
    ensures Replays(s, PlanOf(s), Ordered(s.suffix), stop)
    ensures Sorted(Ordered(s.suffix)) && multiset(Ordered(s.suffix)) == multiset(s.suffix)
  {
    if s.truncate {
      OrderedEpochs(s.suffix);
    }
    stop := FoldReplays(s, Ordered(s.suffix));
    OrderedSorts(s.suffix);
  }

  /** The plan's outcome is one of the four. */
  predicate OutcomeIs(s: Setup, p: Plan, events: seq<Event>, stop: nat)
    requires stop <= |events|
  {
    var unknown := stop < |events| && events[stop].version == UNKNOWN_VERSION;
    var diverging := stop < |events| && events[stop].version != UNKNOWN_VERSION && !s.truncate;
    && (p.outcome == "BudgetExceeded" <==> s.precheck.BudgetExceeded?)
    && (p.outcome == "UnknownChartVersion" <==> s.precheck.UnknownCurrent? || (s.precheck.Proceed? && unknown))
    && (p.outcome == "Diverged" <==> s.precheck.InsertedDiverges? || (s.precheck.Proceed? && diverging))
    && (p.outcome == "Planned" <==> s.precheck.Proceed? && !unknown && !diverging)
    && (p.outcome == "Diverged" ==>
          p.errorEpoch == if s.precheck.InsertedDiverges? then s.epoch else events[stop].epoch)
    && (p.outcome != "Diverged" ==> p.errorEpoch == 0)
    && (p.outcome != "Planned" ==>
          && p.amount == -1 && !p.closed && p.replayed == [] && p.versions == [] && p.beliefs == []
          && p.hypothetical == [] && p.committed == [] && p.truncated == 0 && p.fromAmount == s.fromAmount)
  }

  /** Which outcome a plan has: refused before the replay for the budget, the current version or the inserted event;
      refused by the first event that cannot be replayed, for its version or, unless replays are truncated, for
      diverging, with that event's epoch; otherwise planned. A refusal proposes nothing. */
  lemma OutcomeExactly(s: Setup) returns (stop: nat)
    requires s.truncate ==> EpochsNonzero(s.suffix)
    ensures stop <= |Ordered(s.suffix)| && (forall j: nat | j < stop :: !Stops(s, Ordered(s.suffix), j))
    ensures stop < |Ordered(s.suffix)| ==> Stops(s, Ordered(s.suffix), stop)
    ensures OutcomeIs(s, PlanOf(s), Ordered(s.suffix), stop)
  {
    if s.truncate {
      OrderedEpochs(s.suffix);
    }
    stop := FoldMeans(s, Ordered(s.suffix));
  }

  lemma PrefixByInstant(events: seq<Event>, k: nat, at: int)
    requires Sorted(events) && NotEarlier(events, at) && k <= |events|
    ensures ByInstant(events[..k]) && NotEarlier(events[..k], at)
  {
    SortedByInstant(events);
  }

  /** The meaning of a plan's beliefs, for any history not earlier than the inserted event. */
  lemma PlanAsOf(s: Setup, t: int) returns (stop: nat)
    requires (s.truncate ==> EpochsNonzero(s.suffix)) && PlanOf(s).outcome == "Planned" && NotEarlier(s.suffix, s.at)
    ensures stop <= |Ordered(s.suffix)| && PlanOf(s).replayed == Epochs(Ordered(s.suffix)[..stop])
    ensures Increasing(PlanOf(s).beliefs)
    ensures t >= s.at ==> Carries(PlanOf(s).beliefs, t, Amount(s.start, UpTo(Ordered(s.suffix)[..stop], t)))
    ensures t < s.at ==> AsOf(PlanOf(s).beliefs, t) == []
    ensures |PlanOf(s).beliefs| > 0
    ensures
      var last := PlanOf(s).beliefs[|PlanOf(s).beliefs| - 1];
      last.epoch == s.epoch && last.version == s.version && last.command == s.command && last.amount == PlanOf(s).amount
  {
    stop := PlannedMeans(s);
    var events := Ordered(s.suffix);
    Sorting.SameMembers(events, s.suffix);
    forall i | 0 <= i < |events|
      ensures events[i].at >= s.at
    {
      assert events[i] in s.suffix;
    }
    PrefixByInstant(events, stop, s.at);
    var bs := Beliefs(s, events[..stop]);
    BeliefsIncrease(s, events[..stop]);
    BeliefsEnd(s, events[..stop]);
    AsOfSurvivesCompaction(s, events[..stop], t);
    AttributedAsOf(s, bs, t, Amount(s.start, UpTo(events[..stop], t)));
  }

  predicate SafePlan(s: Setup, p: Plan) {
    p.committed == [] && (if p.outcome == "Planned" then |p.beliefs| > 0 else p.beliefs == [])
  }

  lemma {:induction false} FoldSafe(s: Setup, events: seq<Event>)
    ensures SafePlan(s, Folded(s, events))
  {
    if |events| > 0 {
      FoldSafe(s, events[..|events| - 1]);
    }
  }

  /** For any history at all: no effect is ever proposed, a refused plan asserts no beliefs, and the last belief of a
      plan bears the correction's epoch, version and command. */
  lemma PlanIsSafe(s: Setup)
    ensures
      var p := PlanOf(s);
      && p.committed == [] && (p.outcome != "Planned" ==> p.beliefs == [])
      && (p.outcome == "Planned" ==> |p.beliefs| > 0)
      && (p.outcome == "Planned" ==>
            var last := p.beliefs[|p.beliefs| - 1];
            last.epoch == s.epoch && last.version == s.version && last.command == s.command)
  {
    FoldSafe(s, Ordered(s.suffix));
  }
}
