/** The claim state of an item in terms of its comments alone, and every verdict of the gate. */
module ClaimComments {
  import opened Text
  import opened ClaimGeneration

  // ---------------------------------------------------------------- what a comment says

  /** A comment is a claim when it opens with a claim marker and has a numeric id, whatever else the marker says. */
  predicate Marked(c: Comment) {
    c.marker && c.id.Some?
  }

  /** The lease a marker asks for: its own if it declares a positive number and the operator has not set one. */
  function Asked(cfg: Config, c: Comment): int {
    if !cfg.cliOverride && c.lease.Minutes? && c.lease.n > 0 then c.lease.n else cfg.fallback
  }

  /** The lease in force: the one asked for, unless no expiry can be computed from it. */
  function LeaseOf(cfg: Config, c: Comment): int {
    if c.updatedAt.Some? && !Representable(cfg, c.updatedAt.value + Asked(cfg, c) * MINUTE) then cfg.fallback
    else Asked(cfg, c)
  }

  function ExpiryAt(cfg: Config, c: Comment): Option<int> {
    if c.updatedAt.None? then None else Some(c.updatedAt.value + LeaseOf(cfg, c) * MINUTE)
  }

  /** The comment has no readable timestamp, or its expiry can be represented. */
  predicate Datable(cfg: Config, c: Comment) {
    ExpiryAt(cfg, c).Some? ==> Representable(cfg, ExpiryAt(cfg, c).value)
  }

  /** More time has passed since the comment was updated than its lease, counted in whole seconds. */
  predicate Outlived(cfg: Config, now: int, c: Comment) {
    c.updatedAt.Some? &&
    (var since, lease := now - c.updatedAt.value, LeaseOf(cfg, c);
     if lease >= 0 then since >= lease * MINUTE + SECOND else since > -SECOND)
  }

  /** The age in whole seconds, cut towards zero; -1 without a readable timestamp. */
  predicate AgeIs(now: int, c: Comment, age: int) {
    match c.updatedAt
    case None => age == -1
    case Some(at) =>
      var since := now - at;
      && (since >= 0 ==> 0 <= age && age * SECOND <= since < (age + 1) * SECOND)
      && (since < 0 ==> age <= 0 && (age - 1) * SECOND < since <= age * SECOND)
  }

  /** Every marker with a numeric id is read as a claim with that id, worker, lease and age, whatever its lease field;
      no other comment is; and reading fails exactly when not even the fallback lease gives an expiry. */
  lemma ReadingMeans(cfg: Config, now: int, c: Comment)
    ensures ReadComment(cfg, now, c).Ignored? <==> !Marked(c)
    ensures ReadComment(cfg, now, c).NoVerdict? <==> Marked(c) && !Datable(cfg, c)
    ensures ReadComment(cfg, now, c).Read? ==>
      var claimant := ReadComment(cfg, now, c).claimant;
      && Some(claimant.id) == c.id && claimant.worker == c.worker && claimant.lease == LeaseOf(cfg, c)
      && claimant.expiresAt == ExpiryAt(cfg, c) && AgeIs(now, c, claimant.ageSeconds)
      && (Lapsed(claimant) <==> Outlived(cfg, now, c))
  {
    if ReadComment(cfg, now, c).Read? {
      LapsesExactly(cfg, now, c);
    }
  }

  // ---------------------------------------------------------------- what the comments say

  predicate LiveClaim(cfg: Config, now: int, c: Comment) {
    Marked(c) && !Outlived(cfg, now, c)
  }

  predicate LapsedClaim(cfg: Config, now: int, c: Comment) {
    Marked(c) && Outlived(cfg, now, c)
  }

  /** Not a marker whose lease ran out later, or at the same time under a larger id. */
  predicate NotLater(cfg: Config, c: Comment, last: Claimant) {
    Marked(c) && ExpiryAt(cfg, c).Some? ==>
      last.expiresAt.Some? && (ExpiryAt(cfg, c).value < last.expiresAt.value
                               || (ExpiryAt(cfg, c) == last.expiresAt && c.id.value <= last.id))
  }

  /** The claimant is the one of that comment. */
  predicate Of(cfg: Config, c: Comment, claimant: Claimant) {
    c.id == Some(claimant.id) && c.worker == claimant.worker && claimant.expiresAt == ExpiryAt(cfg, c)
  }

  lemma ClaimOfComment(cfg: Config, now: int, comments: seq<Comment>, i: nat)
    requires i < |comments| && Marked(comments[i]) && Datable(cfg, comments[i])
    ensures
      var reading := ReadComment(cfg, now, comments[i]);
      reading.Read? && Of(cfg, comments[i], reading.claimant)
      && Claims(cfg, now, comments, reading.claimant, Outlived(cfg, now, comments[i]))
  {
    ReadingMeans(cfg, now, comments[i]);
    var claimant := ReadComment(cfg, now, comments[i]).claimant;
    assert IsClaim(cfg, now, comments[i], claimant, Outlived(cfg, now, comments[i]));
  }

  lemma CommentOfClaim(cfg: Config, now: int, comments: seq<Comment>, c: Claimant, lapsed: bool) returns (i: nat)
    requires Claims(cfg, now, comments, c, lapsed)
    ensures i < |comments| && Marked(comments[i]) && Of(cfg, comments[i], c)
    ensures Outlived(cfg, now, comments[i]) == lapsed
  {
    i :| 0 <= i < |comments| && IsClaim(cfg, now, comments[i], c, lapsed);
    ReadingMeans(cfg, now, comments[i]);
  }

  /** There is a claim state exactly when every marker's expiry can be computed. */
  lemma StateExists(cfg: Config, now: int, comments: seq<Comment>)
    ensures ClaimStateOf(cfg, now, comments).Some? <==>
      forall i | 0 <= i < |comments| && Marked(comments[i]) :: Datable(cfg, comments[i])
  {
    SortedDefined(cfg, now, comments);
    forall i | 0 <= i < |comments|
      ensures ReadComment(cfg, now, comments[i]) != NoVerdict <==> Marked(comments[i]) ==> Datable(cfg, comments[i])
    {
      ReadingMeans(cfg, now, comments[i]);
    }
  }

  /** The state is the one the comments give. */
  ghost predicate Told(cfg: Config, now: int, comments: seq<Comment>, state: ClaimState) {
    match state
    case Held(winner) =>
      && (exists i | 0 <= i < |comments| :: LiveClaim(cfg, now, comments[i]) && Of(cfg, comments[i], winner))
      && (forall i | 0 <= i < |comments| && LiveClaim(cfg, now, comments[i]) :: winner.id <= comments[i].id.value)
    case Expired(last) =>
      && (exists i | 0 <= i < |comments| :: LapsedClaim(cfg, now, comments[i]) && Of(cfg, comments[i], last))
      && (forall i | 0 <= i < |comments| :: !LiveClaim(cfg, now, comments[i]))
      && (forall i | 0 <= i < |comments| :: NotLater(cfg, comments[i], last))
    case Released => forall i | 0 <= i < |comments| :: !Marked(comments[i])
  }

  /** Held by the lowest id among the markers whose lease has not run out; expired, naming the marker whose lease ran
      out last, when every marker's has; released when there is no marker. The three exclude each other, so the state
      is decided. */
  lemma CommentsDecide(cfg: Config, now: int, comments: seq<Comment>)
    requires ClaimStateOf(cfg, now, comments).Some?
    ensures Told(cfg, now, comments, ClaimStateOf(cfg, now, comments).value)
  {
    var state := ClaimStateOf(cfg, now, comments).value;
    StateExists(cfg, now, comments);
    forall i | 0 <= i < |comments| && Marked(comments[i])
      ensures CommentFits(cfg, now, comments[i], state)
    {
      MarkerFits(cfg, now, comments, i);
    }
    match state {
      case Held(winner) =>
        WhoHolds(cfg, now, comments, winner);
        var i := CommentOfClaim(cfg, now, comments, winner, false);
      case Expired(last) =>
        WhoHolds(cfg, now, comments, last);
        var i := CommentOfClaim(cfg, now, comments, last, true);
      case Released =>
    }
  }

  /** What one marker's being there says of the state. */
  predicate CommentFits(cfg: Config, now: int, c: Comment, state: ClaimState)
    requires Marked(c)
  {
    if Outlived(cfg, now, c) then !state.Released? && (state.Expired? ==> NotLater(cfg, c, state.lapsed))
    else state.Held? && state.winner.id <= c.id.value
  }

  lemma MarkerFits(cfg: Config, now: int, comments: seq<Comment>, i: nat)
    requires ClaimStateOf(cfg, now, comments).Some? && i < |comments| && Marked(comments[i])
    ensures CommentFits(cfg, now, comments[i], ClaimStateOf(cfg, now, comments).value)
  {
    StateExists(cfg, now, comments);
    ClaimOfComment(cfg, now, comments, i);
    WhoHolds(cfg, now, comments, ReadComment(cfg, now, comments[i]).claimant);
  }

  // ---------------------------------------------------------------- every verdict

  /** The body's one marker is complete and of the supported version. */
  predicate Supported(auths: seq<Authorization>) {
    |auths| == 1 && auths[0].complete && auths[0].version == "1"
  }

  /** And it names a generation, this head and this item. */
  predicate Names(a: Authorization, head: string, item: string) {
    && |a.gen| > 0 && (forall u | u in a.gen :: 0x30 <= u <= 0x39)
    && a.head == head && a.itemShaped && a.item == item
  }

  /** Each verdict, and when it is given: exactly one of them, the state being looked at only when the body is in
      order. */
  lemma VerdictsExactly(auths: seq<Authorization>, head: string, item: string, state: Option<ClaimState>)
    ensures
      var verdict := Classify(auths, head, item, state);
      var inOrder := Supported(auths) && Names(auths[0], head, item);
      && (verdict == Missing <==> !Supported(auths))
      && (verdict == Mismatched <==>
            Supported(auths) && (!Names(auths[0], head, item) || state == Some(Released)))
      && (verdict == Unreadable <==> inOrder && state.None?)
      && (verdict == Lapse <==> inOrder && state.Some? && state.value.Expired?)
      && (verdict == Stale <==>
            inOrder && state.Some? && state.value.Held? && IntText(state.value.winner.id) != auths[0].gen)
      && (verdict == Pass <==>
            inOrder && state.Some? && state.value.Held? && IntText(state.value.winner.id) == auths[0].gen)
  {
    if |auths| == 1 {
      assert AllDigits(auths[0].gen) <==> forall u | u in auths[0].gen :: 0x30 <= u <= 0x39;
    }
  }
}
