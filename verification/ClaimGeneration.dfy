/** The claim-generation gate: which claim marker holds an item, until when a verdict stands, and what a sweep may
    change. Instants are microseconds. */
module ClaimGeneration {
  import opened Text

  const SECOND: int := 1_000_000
  const MINUTE: int := 60 * SECOND

  /** A marker's `lease=`: absent, not a number, or a number of minutes. */
  datatype LeaseField = Absent | Malformed | Minutes(n: int)

  /** A comment line: whether it opens with a claim marker, its numeric id, and what the marker says. */
  datatype Comment = Comment(
    marker: bool, id: Option<int>, worker: Option<string>, lease: LeaseField, updatedAt: Option<int>)

  /** The fallback lease, whether the operator set it, and the instants that can be represented. */
  datatype Config = Config(fallback: int, cliOverride: bool, firstInstant: int, lastInstant: int)

  datatype Claimant = Claimant(id: int, worker: Option<string>, lease: int, expiresAt: Option<int>, ageSeconds: int)

  datatype ClaimState = Held(winner: Claimant) | Expired(lapsed: Claimant) | Released

  /** `int(delta.total_seconds())`: towards zero. */
  function WholeSeconds(delta: int): int {
    if delta >= 0 then delta / SECOND else -((-delta) / SECOND)
  }

  /** `marker_lease` */
  function MarkerLease(cfg: Config, field: LeaseField): int {
    if cfg.cliOverride then cfg.fallback
    else
      match field
      case Minutes(n) => if n <= 0 then cfg.fallback else n
      case _ => cfg.fallback
  }

  predicate Representable(cfg: Config, at: int) {
    cfg.firstInstant <= at <= cfg.lastInstant
  }

  /** `expiry_of` */
  function ExpiryOf(cfg: Config, at: int, lease: int): Option<int> {
    if Representable(cfg, at + lease * MINUTE) then Some(at + lease * MINUTE) else None
  }

  /** One comment: not a claim, a claim, or the error that ends the reading. */
  datatype Reading = Ignored | NoVerdict | Read(claimant: Claimant)

  function ReadComment(cfg: Config, now: int, c: Comment): Reading {
    if !c.marker || c.id.None? then Ignored
    else
      var lease := MarkerLease(cfg, c.lease);
      match c.updatedAt
      case None => Read(Claimant(c.id.value, c.worker, lease, None, -1))
      case Some(at) =>
        var age := WholeSeconds(now - at);
        match ExpiryOf(cfg, at, lease)
        case Some(expiry) => Read(Claimant(c.id.value, c.worker, lease, Some(expiry), age))
        case None =>
          match ExpiryOf(cfg, at, cfg.fallback)
          case Some(expiry) => Read(Claimant(c.id.value, c.worker, cfg.fallback, Some(expiry), age))
          case None => NoVerdict
  }

  predicate Lapsed(c: Claimant) {
    c.ageSeconds >= 0 && c.ageSeconds > c.lease * 60
  }

  datatype Lists = Lists(live: seq<Claimant>, lapsed: seq<Claimant>)

  /** The comments sorted into live and lapsed claims; without a result, the reading ended in an error. */
  function Sorted(cfg: Config, now: int, comments: seq<Comment>): Option<Lists> {
    if |comments| == 0 then Some(Lists([], []))
    else
      match Sorted(cfg, now, comments[..|comments| - 1])
      case None => None
      case Some(lists) =>
        match ReadComment(cfg, now, comments[|comments| - 1])
        case Ignored => Some(lists)
        case NoVerdict => None
        case Read(c) =>
          Some(if Lapsed(c) then lists.(lapsed := lists.lapsed + [c]) else lists.(live := lists.live + [c]))
  }

  /** `min(live, key=lambda c: c.id)` */
  function LowestId(cs: seq<Claimant>): (r: Claimant)
    requires |cs| > 0
    ensures r in cs && forall c | c in cs :: r.id <= c.id
  {
    if |cs| == 1 then cs[0]
    else
      var best := LowestId(cs[..|cs| - 1]);
      assert cs == cs[..|cs| - 1] + [cs[|cs| - 1]];
      if cs[|cs| - 1].id < best.id then cs[|cs| - 1] else best
  }

  /** Later expiry, or the same and a larger id; one without an expiry is earliest. */
  predicate LapsedAfter(a: Claimant, b: Claimant) {
    if a.expiresAt.None? then b.expiresAt.None? && a.id > b.id
    else b.expiresAt.None? || a.expiresAt.value > b.expiresAt.value
         || (a.expiresAt.value == b.expiresAt.value && a.id > b.id)
  }

  /** `max(lapsed, key=lambda c: (c.expires_at or floor, c.id))` */
  function LastLapsed(cs: seq<Claimant>): (r: Claimant)
    requires |cs| > 0
    ensures r in cs && forall c | c in cs :: !LapsedAfter(c, r)
  {
    if |cs| == 1 then cs[0]
    else
      var best := LastLapsed(cs[..|cs| - 1]);
      assert cs == cs[..|cs| - 1] + [cs[|cs| - 1]];
      if LapsedAfter(cs[|cs| - 1], best) then cs[|cs| - 1] else best
  }

  function Elect(lists: Lists): ClaimState {
    if |lists.live| > 0 then Held(LowestId(lists.live))
    else if |lists.lapsed| > 0 then Expired(LastLapsed(lists.lapsed))
    else Released
  }

  /** Of several claims with the lowest id, the first. */
  lemma {:induction false} LowestIsFirst(cs: seq<Claimant>, i: nat)
    requires i < |cs| && cs[i].id == LowestId(cs).id && forall k | 0 <= k < i :: cs[k].id > cs[i].id
    ensures LowestId(cs) == cs[i]
  {
    if i < |cs| - 1 {
      LowestIsFirst(cs[..|cs| - 1], i);
    }
  }

  function ClaimStateOf(cfg: Config, now: int, comments: seq<Comment>): Option<ClaimState> {
    match Sorted(cfg, now, comments)
    case None => None
    case Some(lists) => Some(Elect(lists))
  }

  /** `read_claim_state`, after the comments are fetched. */
  method ReadClaimState(cfg: Config, now: int, comments: seq<Comment>) returns (state: Option<ClaimState>)
    ensures state == ClaimStateOf(cfg, now, comments)
  {
    var live: seq<Claimant>, lapsed: seq<Claimant> := [], [];
    for i := 0 to |comments|
      invariant Sorted(cfg, now, comments[..i]) == Some(Lists(live, lapsed))
    {
      assert comments[..i + 1][..i] == comments[..i];
      var comment := comments[i];
      if !comment.marker || comment.id.None? {
        continue;
      }
      var reading := ReadComment(cfg, now, comment);
      if reading.NoVerdict? {
        ErrorEnds(cfg, now, comments, i + 1);
        return None;
      }
      if Lapsed(reading.claimant) {
        lapsed := lapsed + [reading.claimant];
      } else {
        live := live + [reading.claimant];
      }
    }
    assert comments[..|comments|] == comments;
    if |live| > 0 {
      state := Some(Held(LowestId(live)));
    } else if |lapsed| > 0 {
      state := Some(Expired(LastLapsed(lapsed)));
    } else {
      state := Some(Released);
    }
  }

  lemma {:induction false} ErrorEnds(cfg: Config, now: int, comments: seq<Comment>, n: nat)
    requires n <= |comments| && Sorted(cfg, now, comments[..n]).None?
    ensures Sorted(cfg, now, comments).None?
    decreases |comments|
  {
    if n == |comments| {
      assert comments[..n] == comments;
    } else {
      assert comments[..|comments| - 1][..n] == comments[..n];
      ErrorEnds(cfg, now, comments[..|comments| - 1], n);
    }
  }

  // ---------------------------------------------------------------- who holds the item

  /** The comment is a claim that is live, or one that has lapsed. */
  predicate IsClaim(cfg: Config, now: int, c: Comment, claimant: Claimant, lapsed: bool) {
    ReadComment(cfg, now, c) == Read(claimant) && Lapsed(claimant) == lapsed
  }

  predicate Claims(cfg: Config, now: int, comments: seq<Comment>, claimant: Claimant, lapsed: bool) {
    exists i | 0 <= i < |comments| :: IsClaim(cfg, now, comments[i], claimant, lapsed)
  }

  lemma ClaimsStep(cfg: Config, now: int, comments: seq<Comment>, claimant: Claimant, lapsed: bool)
    requires |comments| > 0
    ensures Claims(cfg, now, comments, claimant, lapsed) <==>
      Claims(cfg, now, comments[..|comments| - 1], claimant, lapsed)
      || IsClaim(cfg, now, comments[|comments| - 1], claimant, lapsed)
  {
    var before := comments[..|comments| - 1];
    if Claims(cfg, now, comments, claimant, lapsed) {
      var i :| 0 <= i < |comments| && IsClaim(cfg, now, comments[i], claimant, lapsed);
      if i < |comments| - 1 {
        assert before[i] == comments[i];
      }
    }
    if Claims(cfg, now, before, claimant, lapsed) {
      var i :| 0 <= i < |before| && IsClaim(cfg, now, before[i], claimant, lapsed);
      assert comments[i] == before[i];
    }
  }

  lemma {:induction false} SortedMeans(cfg: Config, now: int, comments: seq<Comment>, claimant: Claimant)
    requires Sorted(cfg, now, comments).Some?
    ensures
      var lists := Sorted(cfg, now, comments).value;
      && (claimant in lists.live <==> Claims(cfg, now, comments, claimant, false))
      && (claimant in lists.lapsed <==> Claims(cfg, now, comments, claimant, true))
  {
    if |comments| > 0 {
      SortedMeans(cfg, now, comments[..|comments| - 1], claimant);
      ClaimsStep(cfg, now, comments, claimant, false);
      ClaimsStep(cfg, now, comments, claimant, true);
    }
  }

  lemma {:induction false} SortedDefined(cfg: Config, now: int, comments: seq<Comment>)
    ensures Sorted(cfg, now, comments).Some? <==>
      forall i | 0 <= i < |comments| :: ReadComment(cfg, now, comments[i]) != NoVerdict
  {
    if |comments| > 0 {
      var before := comments[..|comments| - 1];
      SortedDefined(cfg, now, before);
      if forall i | 0 <= i < |before| :: ReadComment(cfg, now, before[i]) != NoVerdict {
        forall i | 0 <= i < |before|
          ensures ReadComment(cfg, now, comments[i]) != NoVerdict
        {
          assert comments[i] == before[i];
        }
      } else {
        var i :| 0 <= i < |before| && ReadComment(cfg, now, before[i]) == NoVerdict;
        assert comments[i] == before[i];
      }
    }
  }

  /** Held exactly by the live claim with the lowest id; expired, with the claim that lapsed last, exactly when there
      are claims and none is live; released exactly when there is no claim. */
  lemma WhoHolds(cfg: Config, now: int, comments: seq<Comment>, c: Claimant)
    requires ClaimStateOf(cfg, now, comments).Some?
    ensures
      var state := ClaimStateOf(cfg, now, comments).value;
      && (state.Held? ==> Claims(cfg, now, comments, state.winner, false))
      && (state.Held? && Claims(cfg, now, comments, c, false) ==> state.winner.id <= c.id)
      && (state.Expired? ==> Claims(cfg, now, comments, state.lapsed, true))
      && (state.Expired? && Claims(cfg, now, comments, c, true) ==> !LapsedAfter(c, state.lapsed))
      && (Claims(cfg, now, comments, c, false) ==> state.Held?)
      && (Claims(cfg, now, comments, c, true) ==> !state.Released?)
  {
    SortedMeans(cfg, now, comments, c);
    var lists := Sorted(cfg, now, comments).value;
    match Elect(lists) {
      case Held(w) => SortedMeans(cfg, now, comments, w);
      case Expired(l) => SortedMeans(cfg, now, comments, l);
      case Released =>
    }
  }

  // ---------------------------------------------------------------- when a claim lapses

  /** The first instant at which a claim has lapsed, if it ever does. With a lease of zero or more that is one second
      after the expiry it publishes, ages being cut to whole seconds. A negative lease, which only an operator can
      give, lapses as soon as the age is not negative, which is later still. */
  function LapsesAt(c: Claimant): Option<int> {
    match c.expiresAt
    case None => None
    case Some(expiry) =>
      Some(if c.lease >= 0 then expiry + SECOND else expiry - c.lease * MINUTE - SECOND + 1)
  }

  predicate LapsedBy(c: Claimant, now: int) {
    LapsesAt(c).Some? && now >= LapsesAt(c).value
  }

  /** A claim has lapsed exactly from that instant on; one with no readable timestamp never does. */
  lemma LapsesExactly(cfg: Config, now: int, c: Comment)
    requires ReadComment(cfg, now, c).Read?
    ensures Lapsed(ReadComment(cfg, now, c).claimant) <==> LapsedBy(ReadComment(cfg, now, c).claimant, now)
  {
    var claimant := ReadComment(cfg, now, c).claimant;
    if c.updatedAt.Some? {
      WholeSecondsMeans(now - c.updatedAt.value, claimant.lease * 60);
    }
  }

  lemma WholeSecondsMeans(delta: int, n: int)
    ensures n >= 0 ==> (WholeSeconds(delta) > n <==> delta >= (n + 1) * SECOND)
    ensures WholeSeconds(delta) >= 0 <==> delta > -SECOND
  {
  }

  /** The published expiry is never late: the claim is live up to it and for less than a second more, and for longer
      only under a negative lease. */
  lemma LapsesAfterExpiry(cfg: Config, now: int, c: Comment)
    requires ReadComment(cfg, now, c).Read?
    ensures
      var claimant := ReadComment(cfg, now, c).claimant;
      && (claimant.expiresAt.None? ==> !Lapsed(claimant))
      && (claimant.expiresAt.Some? && claimant.lease >= 0 ==>
            (Lapsed(claimant) <==> now >= claimant.expiresAt.value + SECOND))
      && (claimant.expiresAt.Some? && Lapsed(claimant) ==> now >= claimant.expiresAt.value + SECOND)
  {
    LapsesExactly(cfg, now, c);
  }

  /** Which lease a claim runs under: the operator's if given, else the marker's own when it is positive and its
      expiry can be represented, else the fallback; and the expiry published is that of the lease reported. */
  lemma LeaseAndExpiry(cfg: Config, now: int, c: Comment, at: int)
    requires ReadComment(cfg, now, c).Read? && c.updatedAt == Some(at)
    ensures
      var claimant := ReadComment(cfg, now, c).claimant;
      && claimant.expiresAt == Some(at + claimant.lease * MINUTE)
      && (claimant.lease != cfg.fallback <==>
            !cfg.cliOverride && c.lease.Minutes? && c.lease.n > 0 && c.lease.n != cfg.fallback
            && Representable(cfg, at + c.lease.n * MINUTE))
      && (claimant.lease != cfg.fallback ==> c.lease == Minutes(claimant.lease))
  {
  }

  /** The expiry of a claim does not depend on when it is read. */
  lemma ExpiryIsFixed(cfg: Config, now: int, later: int, c: Comment)
    ensures ReadComment(cfg, now, c).Read? <==> ReadComment(cfg, later, c).Read?
    ensures ReadComment(cfg, now, c).NoVerdict? <==> ReadComment(cfg, later, c).NoVerdict?
    ensures ReadComment(cfg, now, c).Read? ==>
      var a, b := ReadComment(cfg, now, c).claimant, ReadComment(cfg, later, c).claimant;
      a.id == b.id && a.expiresAt == b.expiresAt && a.lease == b.lease
  {
  }

  // ---------------------------------------------------------------- until when a verdict stands

  /** What may happen on an item after a verdict. A posted comment gets an id no other has, and an edit keeps the id. */
  datatype Change = Wait(until: int) | Post(comment: Comment) | Edit(i: nat, comment: Comment) | Remove(i: nat)

  /** Comment ids are not repeated. */
  predicate DistinctIds(comments: seq<Comment>) {
    forall i, j | 0 <= i < j < |comments| :: !SameId(comments[i], comments[j])
  }

  predicate SameId(a: Comment, b: Comment) {
    a.id.Some? && a.id == b.id
  }

  lemma IdIsUnique(comments: seq<Comment>, i: nat, k: nat)
    requires DistinctIds(comments) && i < |comments| && k < |comments| && SameId(comments[i], comments[k])
    ensures i == k
  {
    assert SameId(comments[k], comments[i]);
  }

  lemma OtherId(comments: seq<Comment>, i: nat, k: nat)
    requires DistinctIds(comments) && i < |comments| && k < |comments| && i != k
    ensures !SameId(comments[i], comments[k])
  {
    assert !SameId(comments[if i < k then i else k], comments[if i < k then k else i]);
  }

  datatype World = World(now: int, comments: seq<Comment>)

  predicate Possible(w: World, e: Change) {
    match e
    case Wait(t) => w.now <= t
    case Post(c) => forall i | 0 <= i < |w.comments| :: !SameId(w.comments[i], c)
    case Edit(i, c) => i < |w.comments| && c.id == w.comments[i].id
    case Remove(i) => i < |w.comments|
  }

  function Next(w: World, e: Change): World
    requires Possible(w, e)
  {
    match e
    case Wait(t) => w.(now := t)
    case Post(c) => w.(comments := w.comments + [c])
    case Edit(i, c) => w.(comments := w.comments[i := c])
    case Remove(i) => w.(comments := w.comments[..i] + w.comments[i + 1..])
  }

  predicate HasId(c: Comment, id: int) {
    c.marker && c.id == Some(id)
  }

  /** The claim is live before the instant. */
  predicate Lasts(cfg: Config, c: Comment, until: int) {
    var reading := ReadComment(cfg, 0, c);
    reading.Read? && (LapsesAt(reading.claimant).Some? ==> LapsesAt(reading.claimant).value >= until)
  }

  /** Not a claim that could displace the generation: no claim, a later one, or one that has lapsed. */
  predicate Harmless(cfg: Config, now: int, c: Comment, gen: int) {
    var reading := ReadComment(cfg, now, c);
    reading.Ignored? || (reading.Read? && (reading.claimant.id >= gen || Lapsed(reading.claimant)))
  }

  /** Time passes, but not up to the instant; no comment is made into a live claim with a lower id, by posting it or by
      renewing one that has lapsed; the winning marker is neither removed nor cut short. Anything else may happen. */
  predicate Fair(cfg: Config, gen: int, until: int, w: World, e: Change) {
    Possible(w, e) &&
    match e
    case Wait(t) => t < until
    case Post(c) => Harmless(cfg, w.now, c, gen)
    case Edit(i, c) =>
      && Harmless(cfg, w.now, c, gen)
      && (HasId(w.comments[i], gen) ==> HasId(c, gen) && Lasts(cfg, c, until))
    case Remove(i) => !HasId(w.comments[i], gen)
  }

  predicate FairRun(cfg: Config, gen: int, until: int, w: World, changes: seq<Change>)
    decreases |changes|
  {
    |changes| == 0 ||
    (Fair(cfg, gen, until, w, changes[0]) && FairRun(cfg, gen, until, Next(w, changes[0]), changes[1..]))
  }

  function Run(cfg: Config, gen: int, until: int, w: World, changes: seq<Change>): World
    requires FairRun(cfg, gen, until, w, changes)
    decreases |changes|
  {
    if |changes| == 0 then w else Run(cfg, gen, until, Next(w, changes[0]), changes[1..])
  }

  /** The generation is held: its marker lasts, and no other claim has a lower id and is live. */
  predicate Firm(cfg: Config, gen: int, until: int, w: World) {
    && w.now < until && DistinctIds(w.comments)
    && (forall i | 0 <= i < |w.comments| :: Harmless(cfg, w.now, w.comments[i], gen))
    && (exists i | 0 <= i < |w.comments| :: HasId(w.comments[i], gen) && Lasts(cfg, w.comments[i], until))
  }

  lemma HarmlessLater(cfg: Config, now: int, later: int, c: Comment, gen: int)
    requires now <= later && Harmless(cfg, now, c, gen)
    ensures Harmless(cfg, later, c, gen)
  {
    ExpiryIsFixed(cfg, now, later, c);
    if ReadComment(cfg, now, c).Read? {
      LapsesExactly(cfg, now, c);
      LapsesExactly(cfg, later, c);
    }
  }

  lemma NextDistinct(w: World, e: Change)
    requires DistinctIds(w.comments) && Possible(w, e)
    ensures DistinctIds(Next(w, e).comments)
  {
    var after := Next(w, e).comments;
    forall i, j | 0 <= i < j < |after|
      ensures !SameId(after[i], after[j])
    {
      match e {
        case Wait(_) =>
        case Post(c) => assert j < |w.comments| ==> !SameId(w.comments[i], w.comments[j]);
        case Edit(k, c) => assert !SameId(w.comments[i], w.comments[j]);
        case Remove(k) =>
          var i1, j1 := if i < k then i else i + 1, if j < k then j else j + 1;
          assert after[i] == w.comments[i1] && after[j] == w.comments[j1];
          assert !SameId(w.comments[i1], w.comments[j1]);
      }
    }
  }

  lemma FairKeepsFirm(cfg: Config, gen: int, until: int, w: World, e: Change)
    requires Firm(cfg, gen, until, w) && Fair(cfg, gen, until, w, e)
    ensures Firm(cfg, gen, until, Next(w, e))
  {
    NextDistinct(w, e);
    match e {
      case Wait(t) =>
        forall i | 0 <= i < |w.comments|
          ensures Harmless(cfg, t, w.comments[i], gen)
        {
          HarmlessLater(cfg, w.now, t, w.comments[i], gen);
        }
      case Post(c) => PostKeepsFirm(cfg, gen, until, w, c);
      case Edit(i, c) => EditKeepsFirm(cfg, gen, until, w, i, c);
      case Remove(i) => RemoveKeepsFirm(cfg, gen, until, w, i);
    }
  }

  lemma PostKeepsFirm(cfg: Config, gen: int, until: int, w: World, c: Comment)
    requires Firm(cfg, gen, until, w) && Harmless(cfg, w.now, c, gen) && DistinctIds(w.comments + [c])
    ensures Firm(cfg, gen, until, w.(comments := w.comments + [c]))
  {
    var k :| 0 <= k < |w.comments| && HasId(w.comments[k], gen) && Lasts(cfg, w.comments[k], until);
    assert (w.comments + [c])[k] == w.comments[k];
  }

  lemma EditKeepsFirm(cfg: Config, gen: int, until: int, w: World, i: nat, c: Comment)
    requires Firm(cfg, gen, until, w) && Fair(cfg, gen, until, w, Edit(i, c)) && DistinctIds(w.comments[i := c])
    ensures Firm(cfg, gen, until, w.(comments := w.comments[i := c]))
  {
    var k :| 0 <= k < |w.comments| && HasId(w.comments[k], gen) && Lasts(cfg, w.comments[k], until);
    assert HasId(w.comments[i := c][k], gen) && Lasts(cfg, w.comments[i := c][k], until);
  }

  lemma RemoveKeepsFirm(cfg: Config, gen: int, until: int, w: World, i: nat)
    requires Firm(cfg, gen, until, w) && i < |w.comments| && !HasId(w.comments[i], gen)
    requires DistinctIds(w.comments[..i] + w.comments[i + 1..])
    ensures Firm(cfg, gen, until, w.(comments := w.comments[..i] + w.comments[i + 1..]))
  {
    var k :| 0 <= k < |w.comments| && HasId(w.comments[k], gen) && Lasts(cfg, w.comments[k], until);
    var after := w.comments[..i] + w.comments[i + 1..];
    assert after[if k < i then k else k - 1] == w.comments[k];
    forall n | 0 <= n < |after|
      ensures Harmless(cfg, w.now, after[n], gen)
    {
      assert after[n] == w.comments[if n < i then n else n + 1];
    }
  }

  predicate HeldBy(cfg: Config, now: int, comments: seq<Comment>, gen: int) {
    var state := ClaimStateOf(cfg, now, comments);
    state.Some? && state.value.Held? && state.value.winner.id == gen
  }

  /** Held under the generation by a claim that is live before the instant, which is still to come. */
  predicate HeldUntil(cfg: Config, w: World, gen: int, until: int) {
    && w.now < until && HeldBy(cfg, w.now, w.comments, gen)
    && (var lapse := LapsesAt(ClaimStateOf(cfg, w.now, w.comments).value.winner);
        lapse.Some? ==> lapse.value >= until)
  }

  lemma FirmReads(cfg: Config, gen: int, until: int, w: World)
    requires Firm(cfg, gen, until, w)
    ensures ClaimStateOf(cfg, w.now, w.comments).Some?
  {
    SortedDefined(cfg, w.now, w.comments);
    forall i | 0 <= i < |w.comments|
      ensures ReadComment(cfg, w.now, w.comments[i]) != NoVerdict
    {
      assert Harmless(cfg, w.now, w.comments[i], gen);
    }
  }

  lemma FirmClaim(cfg: Config, gen: int, until: int, w: World) returns (c: Claimant)
    requires Firm(cfg, gen, until, w)
    ensures Claims(cfg, w.now, w.comments, c, false) && c.id == gen
  {
    var k :| 0 <= k < |w.comments| && HasId(w.comments[k], gen) && Lasts(cfg, w.comments[k], until);
    ExpiryIsFixed(cfg, 0, w.now, w.comments[k]);
    LapsesExactly(cfg, w.now, w.comments[k]);
    c := ReadComment(cfg, w.now, w.comments[k]).claimant;
    assert IsClaim(cfg, w.now, w.comments[k], c, false);
  }

  lemma FirmIsLowest(cfg: Config, gen: int, until: int, w: World, c: Claimant)
    requires Firm(cfg, gen, until, w) && Claims(cfg, w.now, w.comments, c, false)
    ensures gen <= c.id
  {
    var i :| 0 <= i < |w.comments| && IsClaim(cfg, w.now, w.comments[i], c, false);
    assert Harmless(cfg, w.now, w.comments[i], gen);
  }

  /** In a firm state the generation is the winner. */
  lemma FirmIsHeld(cfg: Config, gen: int, until: int, w: World)
    requires Firm(cfg, gen, until, w)
    ensures HeldBy(cfg, w.now, w.comments, gen)
  {
    FirmReads(cfg, gen, until, w);
    var c := FirmClaim(cfg, gen, until, w);
    WhoHolds(cfg, w.now, w.comments, c);
    FirmIsLowest(cfg, gen, until, w, ClaimStateOf(cfg, w.now, w.comments).value.winner);
  }

  lemma HeldIsFirm(cfg: Config, w: World, gen: int, until: int)
    requires DistinctIds(w.comments) && HeldUntil(cfg, w, gen, until)
    ensures Firm(cfg, gen, until, w)
  {
    var winner := ClaimStateOf(cfg, w.now, w.comments).value.winner;
    var k := WinningComment(cfg, w.now, w.comments, gen);
    ExpiryIsFixed(cfg, 0, w.now, w.comments[k]);
    assert HasId(w.comments[k], gen) && Lasts(cfg, w.comments[k], until);
    forall i | 0 <= i < |w.comments|
      ensures Harmless(cfg, w.now, w.comments[i], gen)
    {
      NotBelowWinner(cfg, w, i);
    }
  }

  /** The comment whose claim holds the item. */
  lemma WinningComment(cfg: Config, now: int, comments: seq<Comment>, gen: int) returns (k: nat)
    requires HeldBy(cfg, now, comments, gen)
    ensures k < |comments| && HasId(comments[k], gen)
    ensures ReadComment(cfg, now, comments[k]) == Read(ClaimStateOf(cfg, now, comments).value.winner)
    ensures !Lapsed(ClaimStateOf(cfg, now, comments).value.winner)
  {
    var winner := ClaimStateOf(cfg, now, comments).value.winner;
    WhoHolds(cfg, now, comments, winner);
    k :| 0 <= k < |comments| && IsClaim(cfg, now, comments[k], winner, false);
  }

  lemma NotBelowWinner(cfg: Config, w: World, i: nat)
    requires i < |w.comments| && ClaimStateOf(cfg, w.now, w.comments).Some?
    requires ClaimStateOf(cfg, w.now, w.comments).value.Held?
    ensures Harmless(cfg, w.now, w.comments[i], ClaimStateOf(cfg, w.now, w.comments).value.winner.id)
  {
    SortedDefined(cfg, w.now, w.comments);
    assert ReadComment(cfg, w.now, w.comments[i]) != NoVerdict;
    match ReadComment(cfg, w.now, w.comments[i]) {
      case Read(c) =>
        if !Lapsed(c) {
          assert IsClaim(cfg, w.now, w.comments[i], c, false);
          WhoHolds(cfg, w.now, w.comments, c);
        }
      case _ =>
    }
  }

  lemma {:induction false} FirmRun(cfg: Config, gen: int, until: int, w: World, changes: seq<Change>)
    requires Firm(cfg, gen, until, w) && FairRun(cfg, gen, until, w, changes)
    ensures Firm(cfg, gen, until, Run(cfg, gen, until, w, changes))
    decreases |changes|
  {
    if |changes| > 0 {
      FairKeepsFirm(cfg, gen, until, w, changes[0]);
      FirmRun(cfg, gen, until, Next(w, changes[0]), changes[1..]);
    }
  }

  /** The published deadline is sound: from a held state, after any sequence of time passing before the winner lapses,
      new claims, lapses and removals of other markers, renewals of markers with larger ids and of the winner, the
      item is still held under the same generation. */
  lemma GenerationStands(cfg: Config, w: World, gen: int, until: int, changes: seq<Change>)
    requires DistinctIds(w.comments) && HeldUntil(cfg, w, gen, until)
    requires FairRun(cfg, gen, until, w, changes)
    ensures var after := Run(cfg, gen, until, w, changes); HeldBy(cfg, after.now, after.comments, gen)
  {
    HeldIsFirm(cfg, w, gen, until);
    FirmRun(cfg, gen, until, w, changes);
    FirmIsHeld(cfg, gen, until, Run(cfg, gen, until, w, changes));
  }

  /** And it is tight: if nothing but time passes, the generation holds exactly until the winner lapses: under a lease
      of zero or more, exactly while less than a second has passed since the expiry it published. */
  lemma DeadlineIsTight(cfg: Config, w: World, gen: int, later: int)
    requires DistinctIds(w.comments) && HeldBy(cfg, w.now, w.comments, gen) && w.now <= later
    ensures
      var winner := ClaimStateOf(cfg, w.now, w.comments).value.winner;
      && (HeldBy(cfg, later, w.comments, gen) <==> !LapsedBy(winner, later))
      && (winner.expiresAt.Some? && winner.lease >= 0 ==>
            (HeldBy(cfg, later, w.comments, gen) <==> later < winner.expiresAt.value + SECOND))
      && (winner.expiresAt.Some? && winner.lease < 0 && later < winner.expiresAt.value + SECOND ==>
            HeldBy(cfg, later, w.comments, gen))
  {
    var winner := ClaimStateOf(cfg, w.now, w.comments).value.winner;
    HoldsUnlapsed(cfg, w, gen, later);
    LapseInstants(winner, later);
    if !LapsedBy(winner, later) {
      UnlapsedHolds(cfg, w, gen, later);
    }
  }

  lemma LapseInstants(c: Claimant, later: int)
    ensures c.expiresAt.Some? && c.lease >= 0 ==> (LapsedBy(c, later) <==> later >= c.expiresAt.value + SECOND)
    ensures c.expiresAt.Some? && c.lease < 0 && LapsedBy(c, later) ==> later >= c.expiresAt.value + SECOND
  {
  }

  lemma UnlapsedHolds(cfg: Config, w: World, gen: int, later: int)
    requires DistinctIds(w.comments) && HeldBy(cfg, w.now, w.comments, gen) && w.now <= later
    requires !LapsedBy(ClaimStateOf(cfg, w.now, w.comments).value.winner, later)
    ensures HeldBy(cfg, later, w.comments, gen)
  {
    var lapse := LapsesAt(ClaimStateOf(cfg, w.now, w.comments).value.winner);
    var until := if lapse.Some? then lapse.value else later + 1;
    WinnerIsLive(cfg, w, gen);
    HeldIsFirm(cfg, w, gen, until);
    FairKeepsFirm(cfg, gen, until, w, Wait(later));
    FirmIsHeld(cfg, gen, until, w.(now := later));
  }

  lemma WinnerIsLive(cfg: Config, w: World, gen: int)
    requires HeldBy(cfg, w.now, w.comments, gen)
    ensures !LapsedBy(ClaimStateOf(cfg, w.now, w.comments).value.winner, w.now)
  {
    var k := WinningComment(cfg, w.now, w.comments, gen);
    LapsesExactly(cfg, w.now, w.comments[k]);
  }

  lemma HoldsUnlapsed(cfg: Config, w: World, gen: int, later: int)
    requires DistinctIds(w.comments) && HeldBy(cfg, w.now, w.comments, gen)
    ensures HeldBy(cfg, later, w.comments, gen) ==>
      !LapsedBy(ClaimStateOf(cfg, w.now, w.comments).value.winner, later)
  {
    if HeldBy(cfg, later, w.comments, gen) {
      var k := WinningComment(cfg, w.now, w.comments, gen);
      var i := WinningComment(cfg, later, w.comments, gen);
      IdIsUnique(w.comments, i, k);
      ExpiryIsFixed(cfg, w.now, later, w.comments[k]);
      LapsesExactly(cfg, later, w.comments[k]);
    }
  }

  // ---------------------------------------------------------------- the rules are exact

  /** Held under the generation at every instant before the one given. */
  ghost predicate StaysHeld(cfg: Config, w: World, gen: int, until: int) {
    forall t | w.now <= t < until :: HeldBy(cfg, t, w.comments, gen)
  }

  lemma FirmStaysHeld(cfg: Config, w: World, gen: int, until: int)
    requires Firm(cfg, gen, until, w)
    ensures StaysHeld(cfg, w, gen, until)
  {
    forall t | w.now <= t < until
      ensures HeldBy(cfg, t, w.comments, gen)
    {
      FairKeepsFirm(cfg, gen, until, w, Wait(t));
      FirmIsHeld(cfg, gen, until, w.(now := t));
    }
  }

  /** A state that stays held is firm. */
  lemma StaysHeldIsFirm(cfg: Config, w: World, gen: int, until: int)
    requires DistinctIds(w.comments) && w.now < until && StaysHeld(cfg, w, gen, until)
    ensures Firm(cfg, gen, until, w)
  {
    assert HeldBy(cfg, w.now, w.comments, gen) && HeldBy(cfg, until - 1, w.comments, gen);
    HoldsUnlapsed(cfg, w, gen, until - 1);
    HeldIsFirm(cfg, w, gen, until);
  }

  lemma FirmChangeIsFair(cfg: Config, gen: int, until: int, w: World, e: Change)
    requires Firm(cfg, gen, until, w) && Possible(w, e) && !e.Wait? && Firm(cfg, gen, until, Next(w, e))
    ensures Fair(cfg, gen, until, w, e)
  {
    var after := Next(w, e).comments;
    var k :| 0 <= k < |after| && HasId(after[k], gen) && Lasts(cfg, after[k], until);
    match e {
      case Post(c) =>
        assert after[|w.comments|] == c;
      case Edit(i, c) =>
        assert after[i] == c;
        if HasId(w.comments[i], gen) {
          NextDistinct(w, e);
          IdIsUnique(after, k, i);
        }
      case Remove(i) => StillThere(w.comments, i, gen, k);
    }
  }

  /** The comment with the id is still there when another is removed. */
  lemma StillThere(comments: seq<Comment>, i: nat, id: int, k: nat)
    requires DistinctIds(comments) && i < |comments| && k < |comments| - 1
    requires HasId((comments[..i] + comments[i + 1..])[k], id)
    ensures !HasId(comments[i], id)
  {
    var k1: nat := if k < i then k else k + 1;
    assert (comments[..i] + comments[i + 1..])[k] == comments[k1];
    OtherId(comments, i, k1);
  }

  /** The rules are exact: from a firm state, a comment posted, edited or removed leaves the item held under the
      generation at every instant before the one given if and only if the change is fair. So besides the winner's own
      lapse, its removal or shortening and a lower-id claim made live do move the generation, and nothing else
      does. */
  lemma FairIsExact(cfg: Config, gen: int, until: int, w: World, e: Change)
    requires Firm(cfg, gen, until, w) && Possible(w, e) && !e.Wait?
    ensures Fair(cfg, gen, until, w, e) <==> StaysHeld(cfg, Next(w, e), gen, until)
  {
    if Fair(cfg, gen, until, w, e) {
      FairKeepsFirm(cfg, gen, until, w, e);
      FirmStaysHeld(cfg, Next(w, e), gen, until);
    }
    if StaysHeld(cfg, Next(w, e), gen, until) {
      NextDistinct(w, e);
      StaysHeldIsFirm(cfg, Next(w, e), gen, until);
      FirmChangeIsFair(cfg, gen, until, w, e);
    }
  }

  const DEFAULTS: Config := Config(120, false, 0, 1_000_000 * MINUTE)

  /** A claim of thirty minutes that has lapsed, and a later one of two hours that holds the item. */
  const LAPSED_CLAIM: Comment := Comment(true, Some(1), None, Minutes(30), Some(0))
  const LIVE_CLAIM: Comment := Comment(true, Some(2), None, Minutes(120), Some(60 * MINUTE))

  /** Renewing a lapsed marker with a lower id moves the generation while the winner's lease still runs. */
  lemma RenewalDisplaces()
    ensures
      var w := World(60 * MINUTE, [LAPSED_CLAIM, LIVE_CLAIM]);
      var renewed := Edit(0, LAPSED_CLAIM.(updatedAt := Some(60 * MINUTE)));
      && HeldBy(DEFAULTS, w.now, w.comments, 2) && Possible(w, renewed)
      && HeldBy(DEFAULTS, w.now, Next(w, renewed).comments, 1)
  {
    var now := 60 * MINUTE;
    var renewed := LAPSED_CLAIM.(updatedAt := Some(now));
    ExampleReadings();
    HolderOfTwo(DEFAULTS, now, LAPSED_CLAIM, LIVE_CLAIM);
    HolderOfTwo(DEFAULTS, now, renewed, LIVE_CLAIM);
    assert [LAPSED_CLAIM, LIVE_CLAIM][0 := renewed] == [renewed, LIVE_CLAIM];
  }

  lemma ExampleReadings()
    ensures
      var now := 60 * MINUTE;
      && ReadComment(DEFAULTS, now, LAPSED_CLAIM) == Read(Claimant(1, None, 30, Some(30 * MINUTE), 3600))
      && ReadComment(DEFAULTS, now, LIVE_CLAIM) == Read(Claimant(2, None, 120, Some(180 * MINUTE), 0))
      && ReadComment(DEFAULTS, now, LAPSED_CLAIM.(updatedAt := Some(now))) ==
         Read(Claimant(1, None, 30, Some(90 * MINUTE), 0))
  {
  }

  /** Of two claims the second of which is live, that with the lower id holds the item, if it is live. */
  lemma HolderOfTwo(cfg: Config, now: int, a: Comment, b: Comment)
    requires ReadComment(cfg, now, a).Read? && ReadComment(cfg, now, b).Read?
    requires !Lapsed(ReadComment(cfg, now, b).claimant)
    ensures
      var c, d := ReadComment(cfg, now, a).claimant, ReadComment(cfg, now, b).claimant;
      ClaimStateOf(cfg, now, [a, b]) == Some(Held(if Lapsed(c) || d.id < c.id then d else c))
  {
    SortedPair(cfg, now, a, b);
    LowestOfTwo(ReadComment(cfg, now, a).claimant, ReadComment(cfg, now, b).claimant);
  }

  lemma LowestOfTwo(c: Claimant, d: Claimant)
    ensures LowestId([d]) == d && LowestId([c, d]) == if d.id < c.id then d else c
  {
    assert [c, d][..1] == [c];
  }

  lemma SortedPair(cfg: Config, now: int, a: Comment, b: Comment)
    requires ReadComment(cfg, now, a).Read? && ReadComment(cfg, now, b).Read?
    requires !Lapsed(ReadComment(cfg, now, b).claimant)
    ensures
      var c, d := ReadComment(cfg, now, a).claimant, ReadComment(cfg, now, b).claimant;
      Sorted(cfg, now, [a, b]) == Some(if Lapsed(c) then Lists([d], [c]) else Lists([c, d], []))
  {
    assert [a, b][..1] == [a] && [a][..0] == [];
    assert Sorted(cfg, now, []) == Some(Lists([], []));
    var c, d := ReadComment(cfg, now, a).claimant, ReadComment(cfg, now, b).claimant;
    assert [] + [c] == [c] && [] + [d] == [d] && [c] + [d] == [c, d];
  }

  // ---------------------------------------------------------------- the verdict

  /** A `fsgg:pr-authorization` marker's fields. */
  datatype Authorization = Authorization(
    complete: bool, version: string, gen: Text, head: string, item: string, itemShaped: bool)

  datatype Verdict = Pass | Missing | Stale | Lapse | Mismatched | Unreadable

  const SUPPORTED_VERSION: string := "1"

  /** The checks of the pull request's body alone. */
  function ClassifyBody(auths: seq<Authorization>, head: string, item: string): Option<Verdict> {
    if |auths| != 1 then Some(Missing)
    else if !auths[0].complete || auths[0].version != SUPPORTED_VERSION then Some(Missing)
    else if |auths[0].gen| == 0 || !AllDigits(auths[0].gen) then Some(Mismatched)
    else if auths[0].head != head then Some(Mismatched)
    else if !auths[0].itemShaped || auths[0].item != item then Some(Mismatched)
    else None
  }

  /** `classify`; heads are compared after lower-casing. */
  function Classify(auths: seq<Authorization>, head: string, item: string, state: Option<ClaimState>): Verdict {
    match ClassifyBody(auths, head, item)
    case Some(v) => v
    case None =>
      match state
      case None => Unreadable
      case Some(Released) => Mismatched
      case Some(Expired(_)) => Lapse
      case Some(Held(winner)) => if IntText(winner.id) == auths[0].gen then Pass else Stale
  }

  /** A verdict that passes goes on passing until the winner lapses, whatever else happens to the item within the
      rules. */
  lemma PassStands(
      cfg: Config, w: World, gen: int, until: int, changes: seq<Change>, auths: seq<Authorization>, head: string,
      item: string)
    requires DistinctIds(w.comments) && HeldUntil(cfg, w, gen, until)
    requires Classify(auths, head, item, ClaimStateOf(cfg, w.now, w.comments)) == Pass
    requires FairRun(cfg, gen, until, w, changes)
    ensures
      var after := Run(cfg, gen, until, w, changes);
      Classify(auths, head, item, ClaimStateOf(cfg, after.now, after.comments)) == Pass
  {
    GenerationStands(cfg, w, gen, until, changes);
  }

  /** The body's one marker: complete, of the supported version, naming this head and this item and the generation. */
  predicate Authorizes(a: Authorization, head: string, item: string, gen: int) {
    && a.complete && a.version == "1" && a.head == head && a.item == item && a.itemShaped
    && gen >= 0 && a.gen == IntText(gen)
  }

  /** A verdict passes exactly when the body has one marker, it authorizes this head and item under some generation, and
      the item is held under that very generation; and there is at most one such generation. */
  lemma PassMeans(auths: seq<Authorization>, head: string, item: string, state: Option<ClaimState>)
    ensures Classify(auths, head, item, state) == Pass <==>
      && |auths| == 1 && state.Some? && state.value.Held?
      && Authorizes(auths[0], head, item, state.value.winner.id)
    ensures forall other: ClaimState ::
      Classify(auths, head, item, state) == Pass && Classify(auths, head, item, Some(other)) == Pass ==>
        other.winner.id == state.value.winner.id
  {
    if state.Some? && state.value.Held? && state.value.winner.id < 0 {
      assert IntText(state.value.winner.id)[0] in IntText(state.value.winner.id);
    }
    forall other: ClaimState |
      Classify(auths, head, item, state) == Pass && Classify(auths, head, item, Some(other)) == Pass
      ensures other.winner.id == state.value.winner.id
    {
      IntTextInjective(other.winner.id, state.value.winner.id);
    }
  }

  // ---------------------------------------------------------------- the sweep

  /** What comes of judging a pull request: a verdict, a failed reading, or any other exception. */
  datatype Evaluation = Judged(verdict: Verdict) | ReadFailed | Crashed

  datatype Conclusion = Success | Failure | OtherConclusion

  /** What comes of reading the standing check: its conclusion if there is one, a failed reading, or an exception of
      another kind, such as output that is not text, which nothing catches. */
  datatype Standing = Known(conclusion: Option<Conclusion>) | StandingUnread | StandingRaised

  /** What comes of publishing: it is done, it is refused, or an exception of another kind, such as taking too long,
      which nothing catches. */
  datatype Publication = Published | PublishRefused | PublishRaised

  datatype PullRequest = PullRequest(
    applies: bool, evaluation: Evaluation, standing: Standing, publication: Publication)

  datatype Tally = Tally(looked: nat, changed: nat, skipped: nat, crashed: nat)

  function ConclusionOf(v: Verdict): Conclusion {
    if v == Pass then Success else Failure
  }

  predicate Unevaluated(e: Evaluation) {
    !e.Judged? || e.verdict.Unreadable?
  }

  /** A revocation of this pull request's check is due. */
  predicate Revocable(pr: PullRequest) {
    && pr.applies && !Unevaluated(pr.evaluation) && pr.evaluation.verdict != Pass
    && pr.standing == Known(Some(Success))
  }

  /** The sweep ends at this pull request, with an exception. */
  predicate Ends(pr: PullRequest, dryRun: bool) {
    || (pr.applies && !Unevaluated(pr.evaluation) && pr.standing.StandingRaised?)
    || (Revocable(pr) && !dryRun && pr.publication.PublishRaised?)
  }

  /** How many pull requests the sweep gets through. */
  function Swept(prs: seq<PullRequest>, dryRun: bool): (n: nat)
    ensures n <= |prs|
  {
    if |prs| == 0 then 0
    else
      var last := |prs| - 1;
      var n := Swept(prs[..last], dryRun);
      if n == last && !Ends(prs[last], dryRun) then |prs| else n
  }

  /** The positions of the pull requests whose check is revoked, among those the sweep gets through. */
  function RevokedAmong(prs: seq<PullRequest>, dryRun: bool): seq<nat> {
    if |prs| == 0 then []
    else
      var last := |prs| - 1;
      RevokedAmong(prs[..last], dryRun) +
      if Revocable(prs[last]) && !dryRun && prs[last].publication.Published? then [last] else []
  }

  function Revoked(prs: seq<PullRequest>, dryRun: bool): seq<nat> {
    RevokedAmong(prs[..Swept(prs, dryRun)], dryRun)
  }

  predicate Skips(pr: PullRequest, dryRun: bool) {
    pr.applies &&
    (Unevaluated(pr.evaluation) || pr.standing.StandingUnread?
     || (Revocable(pr) && !dryRun && pr.publication.PublishRefused?))
  }

  function Bump(n: nat, b: bool): nat {
    if b then n + 1 else n
  }

  function Counted(prs: seq<PullRequest>, dryRun: bool): Tally {
    if |prs| == 0 then Tally(0, 0, 0, 0)
    else
      var before, pr := Counted(prs[..|prs| - 1], dryRun), prs[|prs| - 1];
      Tally(Bump(before.looked, pr.applies),
            Bump(before.changed, Revocable(pr) && (dryRun || pr.publication.Published?)),
            Bump(before.skipped, Skips(pr, dryRun)),
            Bump(before.crashed, pr.applies && pr.evaluation.Crashed?))
  }

  /** The tally reported, if the sweep gets to the end. */
  function TallyOf(prs: seq<PullRequest>, dryRun: bool): Option<Tally> {
    if Swept(prs, dryRun) == |prs| then Some(Counted(prs, dryRun)) else None
  }

  lemma SweptStep(prs: seq<PullRequest>, dryRun: bool, i: nat)
    requires i < |prs| && Swept(prs[..i], dryRun) == i
    ensures Swept(prs[..i + 1], dryRun) == if Ends(prs[i], dryRun) then i else i + 1
  {
    assert prs[..i + 1][..i] == prs[..i];
  }

  lemma {:induction false} SweptStops(prs: seq<PullRequest>, dryRun: bool, i: nat)
    requires i < |prs| && Swept(prs[..i + 1], dryRun) == i
    ensures Swept(prs, dryRun) == i
    decreases |prs|
  {
    var last := |prs| - 1;
    if i == last {
      assert prs[..i + 1] == prs;
    } else {
      assert prs[..last][..i + 1] == prs[..i + 1];
      SweptStops(prs[..last], dryRun, i);
    }
  }

  /** `sweep_all`: each pull request in turn, never anything but `success` to `failure`; without a tally, the sweep
      was ended by an exception. */
  method SweepAll(prs: seq<PullRequest>, dryRun: bool) returns (published: seq<nat>, tally: Option<Tally>)
    ensures published == Revoked(prs, dryRun) && tally == TallyOf(prs, dryRun)
  {
    published := [];
    var looked: nat, changed: nat, skipped: nat, crashed: nat := 0, 0, 0, 0;
    for i := 0 to |prs|
      invariant Swept(prs[..i], dryRun) == i
      invariant published == RevokedAmong(prs[..i], dryRun)
      invariant Tally(looked, changed, skipped, crashed) == Counted(prs[..i], dryRun)
    {
      assert prs[..i + 1][..i] == prs[..i];
      SweptStep(prs, dryRun, i);
      var pr := prs[i];
      if !pr.applies {
        continue;
      }
      looked := looked + 1;
      if pr.evaluation.ReadFailed? || (pr.evaluation.Judged? && pr.evaluation.verdict.Unreadable?) {
        skipped := skipped + 1;
        continue;
      }
      if pr.evaluation.Crashed? {
        crashed := crashed + 1;
        skipped := skipped + 1;
        continue;
      }
      var conclusion := ConclusionOf(pr.evaluation.verdict);
      if pr.standing.StandingRaised? {
        SweptStops(prs, dryRun, i);
        return published, None;
      }
      if pr.standing.StandingUnread? {
        skipped := skipped + 1;
        continue;
      }
      if pr.standing.conclusion.None? || pr.standing.conclusion.value == conclusion {
        continue;
      }
      if !(pr.standing.conclusion.value == Success && conclusion == Failure) {
        continue;
      }
      if dryRun {
        changed := changed + 1;
        continue;
      }
      if pr.publication.PublishRaised? {
        SweptStops(prs, dryRun, i);
        return published, None;
      }
      if pr.publication.PublishRefused? {
        skipped := skipped + 1;
        continue;
      }
      published := published + [i];
      changed := changed + 1;
    }
    assert prs[..|prs|] == prs;
    tally := Some(Tally(looked, changed, skipped, crashed));
  }

  lemma {:induction false} SweptMeans(prs: seq<PullRequest>, dryRun: bool)
    ensures forall j | 0 <= j < Swept(prs, dryRun) :: !Ends(prs[j], dryRun)
    ensures Swept(prs, dryRun) < |prs| ==> Ends(prs[Swept(prs, dryRun)], dryRun)
  {
    if |prs| > 0 {
      SweptMeans(prs[..|prs| - 1], dryRun);
    }
  }

  lemma {:induction false} RevokedAmongMeans(prs: seq<PullRequest>, dryRun: bool, i: nat)
    ensures i in RevokedAmong(prs, dryRun) <==>
      i < |prs| && Revocable(prs[i]) && !dryRun && prs[i].publication.Published?
  {
    if |prs| > 0 {
      RevokedAmongMeans(prs[..|prs| - 1], dryRun, i);
    }
  }

  /** The pull request's item is its own, it was judged by one of the verdicts that do not pass, and its check stands at
      success. */
  predicate Due(pr: PullRequest) {
    && pr.applies && pr.evaluation.Judged? && pr.evaluation.verdict in {Missing, Stale, Lapse, Mismatched}
    && pr.standing == Known(Some(Success))
  }

  /** An exception that nothing catches: in reading the check of a pull request that was judged, or in publishing. */
  predicate RaisesUncaught(pr: PullRequest, dryRun: bool) {
    || (pr.applies && pr.evaluation.Judged? && pr.evaluation.verdict != Unreadable && pr.standing == StandingRaised)
    || (Due(pr) && !dryRun && pr.publication == PublishRaised)
  }

  /** The check is left alone for a failure: in judging, in reading the check or in publishing. */
  predicate LeftAlone(pr: PullRequest, dryRun: bool) {
    pr.applies &&
    (pr.evaluation in {ReadFailed, Crashed, Judged(Unreadable)} || pr.standing == StandingUnread
     || (Due(pr) && !dryRun && pr.publication == PublishRefused))
  }

  /** No sweep is ended before the pull request is done. */
  predicate Reached(prs: seq<PullRequest>, dryRun: bool, i: nat) {
    forall j | 0 <= j < i && j < |prs| :: !RaisesUncaught(prs[j], dryRun)
  }

  /** A check is revoked exactly when it stood at success, its own pull request was judged not to pass, the run is no
      rehearsal, its publication is done, and the sweep was not ended at an earlier pull request by an exception that
      nothing catches: of a publication, such as taking too long, or of reading a standing check. */
  lemma RevokesOnly(prs: seq<PullRequest>, dryRun: bool, i: nat)
    ensures i in Revoked(prs, dryRun) <==>
      && i < |prs| && Due(prs[i]) && !dryRun && prs[i].publication == Published
      && Reached(prs, dryRun, i)
  {
    var n := Swept(prs, dryRun);
    SweptMeans(prs, dryRun);
    RevokedAmongMeans(prs[..n], dryRun, i);
    if n <= i < |prs| && Revocable(prs[i]) && prs[i].publication.Published? {
      assert Ends(prs[n], dryRun);
    }
  }

  /** Judging that crashes or fails to read, and a standing check that cannot be read, are isolated: putting such a pull
      request in the place of another that does not end the sweep changes no other pull request's revocation. */
  lemma FailuresAreIsolated(prs: seq<PullRequest>, dryRun: bool, j: nat, failed: PullRequest, i: nat)
    requires j < |prs| && i != j && !Ends(prs[j], dryRun)
    requires Unevaluated(failed.evaluation) || failed.standing.StandingUnread?
    ensures i in Revoked(prs[j := failed], dryRun) <==> i in Revoked(prs, dryRun)
  {
    var after := prs[j := failed];
    RevokesOnly(prs, dryRun, i);
    RevokesOnly(after, dryRun, i);
    forall k | 0 <= k < |prs|
      ensures Ends(after[k], dryRun) <==> Ends(prs[k], dryRun)
    {
    }
  }

  /** A pull request whose standing success is to be revoked. */
  const DUE: PullRequest := PullRequest(true, Judged(Stale), Known(Some(Success)), Published)

  /** Two revocations are due and the first takes too long to publish: the second check stays at success, and there is
      no tally; had the first been done or refused, the second would have been revoked. */
  lemma SlowPublicationEndsTheSweep()
    ensures
      var slow, refused := DUE.(publication := PublishRaised), DUE.(publication := PublishRefused);
      && 1 !in Revoked([slow, DUE], false) && TallyOf([slow, DUE], false) == None
      && 1 in Revoked([DUE, DUE], false) && 1 in Revoked([refused, DUE], false)
  {
    var slow, refused := DUE.(publication := PublishRaised), DUE.(publication := PublishRefused);
    RevokesOnly([slow, DUE], false, 1);
    RevokesOnly([DUE, DUE], false, 1);
    RevokesOnly([refused, DUE], false, 1);
    SweptMeans([slow, DUE], false);
    assert Ends([slow, DUE][0], false);
  }

  /** There is a tally exactly when no pull request ends the sweep; then every one changed or skipped was looked at,
      crashes are among the skipped, and outside a rehearsal the changes are the revocations. */
  lemma TallyAddsUp(prs: seq<PullRequest>, dryRun: bool)
    ensures TallyOf(prs, dryRun).Some? <==> Reached(prs, dryRun, |prs|)
    ensures TallyOf(prs, dryRun).Some? ==>
      var tally := TallyOf(prs, dryRun).value;
      && tally.changed + tally.skipped <= tally.looked <= |prs| && tally.crashed <= tally.skipped
      && (!dryRun ==> tally.changed == |Revoked(prs, false)|)
  {
    SweptMeans(prs, dryRun);
    if TallyOf(prs, dryRun).Some? {
      CountsAddUp(prs, dryRun);
      assert prs[..|prs|] == prs;
    }
  }

  /** How many of the pull requests are of a kind. */
  function HowMany(prs: seq<PullRequest>, kind: PullRequest -> bool): nat {
    if |prs| == 0 then 0 else HowMany(prs[..|prs| - 1], kind) + if kind(prs[|prs| - 1]) then 1 else 0
  }

  /** What a tally counts: the pull requests looked at; the revocations due, done or rehearsed; those left alone because
      they could not be judged, their check could not be read or their revocation was refused; and among those, the
      crashes. */
  lemma {:induction false} TallyCounts(prs: seq<PullRequest>, dryRun: bool)
    ensures
      var tally := Counted(prs, dryRun);
      && tally.looked == HowMany(prs, (pr: PullRequest) => pr.applies)
      && tally.changed == HowMany(prs, (pr: PullRequest) => Due(pr) && (dryRun || pr.publication == Published))
      && tally.skipped == HowMany(prs, (pr: PullRequest) => LeftAlone(pr, dryRun))
      && tally.crashed == HowMany(prs, (pr: PullRequest) => pr.applies && pr.evaluation == Crashed)
  {
    if |prs| > 0 {
      TallyCounts(prs[..|prs| - 1], dryRun);
    }
  }

  lemma {:induction false} CountsAddUp(prs: seq<PullRequest>, dryRun: bool)
    requires forall j | 0 <= j < |prs| :: !Ends(prs[j], dryRun)
    ensures
      var tally := Counted(prs, dryRun);
      && tally.changed + tally.skipped <= tally.looked <= |prs| && tally.crashed <= tally.skipped
      && (!dryRun ==> tally.changed == |RevokedAmong(prs, false)|)
  {
    if |prs| > 0 {
      CountsAddUp(prs[..|prs| - 1], dryRun);
    }
  }
}
