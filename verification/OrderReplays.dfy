/**
 What a customer is answered: a created or replayed request is one that was really created,
 under the same customer, key and fingerprint, and the table reads back as the stored form of
 that request. With honest fingerprints a replay is for the same trip and the same terms.
 */
module OrderReplays {
  import opened Wrappers
  import opened Text
  import opened Trips
  import opened OrderTerms
  import opened OrderSubmission
  import opened OrderRuns
  import opened OrderInvariants
  import opened OrderTheorems

  predicate SameKey(p: Placed, c: Command) {
    SlotOf(p.c) == SlotOf(c) && p.c.fingerprint == c.fingerprint
  }

  /** The answered request was created under this command's key and fingerprint, or is what such a request reads back as. */
  ghost predicate Given(placed: seq<Placed>, c: Command, outcome: Outcome) {
    match outcome
    case Created(r) => exists p <- placed :: SameKey(p, c) && p.request == r
    case Replayed(r) => exists p <- placed :: SameKey(p, c) && StoredForm(p.request) == r
    case Refused(_) => true
  }

  ghost predicate Honest(placed: seq<Placed>, t: Tx) {
    match t
    case Begun(c, _, _, _, reply, _) =>
      reply.Replay? ==> reply.request.Some? && Given(placed, c, Replayed(reply.request.value))
    case Leaving(c, _, _, _, _, _, outcome) => Given(placed, c, outcome)
    case Answered(c, outcome) => Given(placed, c, outcome)
    case _ => true
  }

  ghost predicate ReadsBack(s: State) {
    && |s.placed| == |s.db.orders|
    && forall k :: 0 <= k < |s.placed| ==> FromRow(s.db.orders[k]) == Some(StoredForm(s.placed[k].request))
  }

  ghost predicate AllHonest(s: State) {
    forall t :: t in s.txs ==> Honest(s.placed, s.txs[t])
  }

  /** A row the table takes reads back as the stored form of the request it was built for. */
  lemma AcceptedReadsBack(c: Command, id: Text, trip: Offer, now: int)
    requires Accepted(BuildRequest(c, id, trip, now)).Some?
    ensures FromRow(Accepted(BuildRequest(c, id, trip, now)).value)
         == Some(StoredForm(BuildRequest(c, id, trip, now)))
  {
    var r := BuildRequest(c, id, trip, now);
    WholeSteps(r.reservedCapacityGrams);
    var row := Accepted(r).value;
    assert row.variation.Some? ==> |row.variation.value| > 0;
    assert row.handlingInstructions.Some? ==> |row.handlingInstructions.value| > 0;
  }

  lemma GivenLater(placed: seq<Placed>, more: seq<Placed>, t: Tx)
    requires placed <= more && Honest(placed, t)
    ensures Honest(more, t)
  {
    forall p | p in placed
      ensures p in more
    {
      var k :| 0 <= k < |placed| && placed[k] == p;
      assert more[k] == p;
    }
  }

  /** What a claim replays was given before. */
  lemma ClaimIsHonest(s: State, c: Command)
    requires OrdersInv(s) && KeysInv(s) && ReadsBack(s) && Claim(s.db, c, s.clock).Replay?
    ensures Claim(s.db, c, s.clock).request.Some?
    ensures Given(s.placed, c, Replayed(Claim(s.db, c, s.clock).request.value))
  {
    assert ResultInv(s, SlotOf(c));
    var k := LastPlaced(s.placed, SlotOf(c)).value;
    assert PlacedInv(s, k);
    assert s.placed[k] in s.placed;
    assert StoredForm(s.placed[k].request) == Claim(s.db, c, s.clock).request.value;
  }

  lemma MoveKeepsHonest(s: State, after: State, tx: nat, t: Tx)
    requires AllHonest(s) && s.placed <= after.placed && after.txs == s.txs[tx := t] && Honest(after.placed, t)
    ensures AllHonest(after)
  {
    forall u | u in after.txs
      ensures Honest(after.placed, after.txs[u])
    {
      if u != tx {
        GivenLater(s.placed, after.placed, s.txs[u]);
      }
    }
  }

  lemma ReadsHonest(s: State, tx: nat, c: Command, attempt: nat, id: Text)
    requires Inv(s) && ReadsBack(s) && AllHonest(s)
    ensures AllHonest(s.(txs := s.txs[tx := Reads(s, c, attempt, id)]))
  {
    if Claim(s.db, c, s.clock).Replay? {
      ClaimIsHonest(s, c);
    }
    MoveKeepsHonest(s, s.(txs := s.txs[tx := Reads(s, c, attempt, id)]), tx, Reads(s, c, attempt, id));
  }

  lemma LockHonest(s: State, tx: nat)
    requires AllHonest(s)
    ensures AllHonest(ApplyLock(s, tx))
  {
    if tx in s.txs && s.txs[tx].Begun? {
      assert Honest(s.placed, s.txs[tx]);
      MoveKeepsHonest(s, ApplyLock(s, tx), tx, AfterLock(s.txs, s.txs[tx]));
    }
  }

  lemma AddedHonest(s: State, after: State, tx: nat, row: Row, p: Placed, outcome: Outcome)
    requires ReadsBack(s) && AllHonest(s)
    requires after.placed == s.placed + [p] && after.db.orders == s.db.orders + [row]
    requires FromRow(row) == Some(StoredForm(p.request))
    requires outcome == Created(p.request) || outcome.Refused?
    requires after.txs == s.txs[tx := Answered(p.c, outcome)]
    ensures ReadsBack(after) && AllHonest(after)
  {
    assert after.placed[|s.placed|] == p;
    assert p in after.placed && SameKey(p, p.c);
    MoveKeepsHonest(s, after, tx, after.txs[tx]);
  }

  lemma RefusedHonest(s: State, after: State, tx: nat, t: Tx)
    requires ReadsBack(s) && AllHonest(s)
    requires after.placed == s.placed && after.db.orders == s.db.orders && after.txs == s.txs[tx := t]
    requires t.Waiting? || (t.Answered? && t.outcome.Refused?)
    ensures ReadsBack(after) && AllHonest(after)
  {
    MoveKeepsHonest(s, after, tx, t);
  }

  lemma CommitHonest(s: State, tx: nat, heard: bool)
    requires ReadsBack(s) && AllHonest(s)
    ensures AllHonest(ApplyCommit(s, tx, heard)) && ReadsBack(ApplyCommit(s, tx, heard))
  {
    if tx in s.txs && s.txs[tx].Ready? {
      var t := s.txs[tx];
      var after := ApplyCommit(s, tx, heard);
      if Finish(s.db, t.c, t.id, t.prior, t.read, s.clock).Ok? {
        CommitRecords(s, tx, heard);
        AcceptedReadsBack(t.c, t.id, t.read, s.clock);
        var p := Placed(t.c, BuildRequest(t.c, t.id, t.read, s.clock), tx);
        AddedHonest(s, after, tx, Accepted(p.request).value, p,
                    if heard then Created(p.request) else Refused(ConnectionFailed));
      } else {
        RefusedHonest(s, after, tx, after.txs[tx]);
      }
    } else if tx in s.txs && s.txs[tx].Leaving? {
      assert Honest(s.placed, s.txs[tx]);
      MoveKeepsHonest(s, ApplyCommit(s, tx, heard), tx, ApplyCommit(s, tx, heard).txs[tx]);
    }
  }

  lemma HonestStep(s: State, a: Action)
    requires Inv(s) && ReadsBack(s) && AllHonest(s)
    ensures ReadsBack(Apply(s, a)) && AllHonest(Apply(s, a))
  {
    WritingStep(s, a);
    if a.Commit? {
      CommitHonest(s, a.tx, a.heard);
    } else if a.Begin? {
      if a.tx !in s.txs {
        ReadsHonest(s, a.tx, a.c, 1, a.id);
      }
      OthersReadBack(s, a);
    } else if a.Retry? {
      if a.tx in s.txs && s.txs[a.tx].Waiting? {
        ReadsHonest(s, a.tx, s.txs[a.tx].c, s.txs[a.tx].attempt + 1, a.id);
      }
      OthersReadBack(s, a);
    } else if a.Lock? {
      LockHonest(s, a.tx);
      OthersReadBack(s, a);
    } else {
      OthersReadBack(s, a);
      OthersHonest(s, a);
    }
  }

  lemma OthersReadBack(s: State, a: Action)
    requires ReadsBack(s) && !a.Commit?
    ensures ReadsBack(Apply(s, a))
  {
  }

  lemma OthersHonest(s: State, a: Action)
    requires AllHonest(s) && !a.Commit? && !a.Begin? && !a.Retry? && !a.Lock?
    ensures AllHonest(Apply(s, a))
  {
    assert Apply(s, a).placed == s.placed;
  }

  lemma {:induction false} HonestRun(s: State, actions: seq<Action>)
    requires Inv(s) && ReadsBack(s) && AllHonest(s)
    ensures ReadsBack(Run(s, actions)) && AllHonest(Run(s, actions))
    decreases |actions|
  {
    if |actions| > 0 {
      HonestStep(s, actions[0]);
      InvStep(s, actions[0]);
      HonestRun(Apply(s, actions[0]), actions[1..]);
    }
  }

  // ---------------------------------------------------------------- where commands come from

  function CommandOf(t: Tx): Option<Command> {
    match t
    case Begun(c, _, _, _, _, _) => Some(c)
    case Ready(c, _, _, _, _, _) => Some(c)
    case Leaving(c, _, _, _, _, _, _) => Some(c)
    case Waiting(c, _) => Some(c)
    case Answered(c, _) => Some(c)
    case _ => None
  }

  /** Every command in flight or behind an order satisfies `ok`. */
  ghost predicate AllCommands(s: State, ok: Command -> bool) {
    && (forall t :: t in s.txs && CommandOf(s.txs[t]).Some? ==> ok(CommandOf(s.txs[t]).value))
    && (forall k :: 0 <= k < |s.placed| ==> ok(s.placed[k].c))
  }

  lemma {:induction false} CommandsRun(s: State, actions: seq<Action>, ok: Command -> bool)
    requires AllCommands(s, ok)
    requires forall i :: 0 <= i < |actions| && actions[i].Begin? ==> ok(actions[i].c)
    ensures AllCommands(Run(s, actions), ok)
    decreases |actions|
  {
    if |actions| > 0 {
      assert actions[0].Begin? ==> ok(actions[0].c);
      CommandsStep(s, actions[0], ok);
      CommandsRun(Apply(s, actions[0]), actions[1..], ok);
    }
  }

  lemma CommandsStep(s: State, a: Action, ok: Command -> bool)
    requires AllCommands(s, ok) && (a.Begin? ==> ok(a.c))
    ensures AllCommands(Apply(s, a), ok)
  {
    if a.Commit? && a.tx in s.txs {
      assert HoldsKey(s.txs[a.tx]) ==> CommandOf(s.txs[a.tx]) == Some(s.txs[a.tx].c);
    }
  }

  /** What an answer that carries a request says about one of the orders. */
  ghost predicate AnswersWith(s: State, c: Command, outcome: Outcome, k: nat)
    requires !outcome.Refused? && k < |s.placed| == |s.db.orders|
  {
    var r := s.placed[k].request;
    && SlotOf(s.placed[k].c) == SlotOf(c)
    && r.customer == c.customer && r.tripId == c.tripId && r.terms == c.terms
    && outcome.request == (if outcome.Created? then r else StoredForm(r))
    && FromRow(s.db.orders[k]) == Some(StoredForm(r))
  }

  lemma GivenIsPlaced(placed: seq<Placed>, c: Command, outcome: Outcome) returns (k: nat)
    requires Given(placed, c, outcome) && !outcome.Refused?
    ensures k < |placed| && SameKey(placed[k], c)
    ensures outcome.request == if outcome.Created? then placed[k].request else StoredForm(placed[k].request)
  {
    var p :| p in placed && SameKey(p, c)
      && outcome.request == if outcome.Created? then p.request else StoredForm(p.request);
    k :| 0 <= k < |placed| && placed[k] == p;
  }

  lemma SameFingerprint(a: Command, b: Command)
    requires Prepared(a) && Prepared(b) && a.fingerprint == b.fingerprint
    ensures a.tripId == b.tripId && a.terms == b.terms
  {
    FingerprintIff(a.tripId, a.terms, b.tripId, b.terms);
  }

  lemma PreparedAgree(s: State, c: Command, k: nat)
    requires AllCommands(s, Prepared) && Prepared(c) && k < |s.placed| && SameKey(s.placed[k], c)
    ensures s.placed[k].c.tripId == c.tripId && s.placed[k].c.terms == c.terms
  {
    SameFingerprint(s.placed[k].c, c);
  }

  lemma PlacedAnswers(s: State, c: Command, outcome: Outcome, k: nat)
    requires k < |s.placed| == |s.db.orders| && PlacedInv(s, k) && !outcome.Refused?
    requires SlotOf(s.placed[k].c) == SlotOf(c)
    requires s.placed[k].c.tripId == c.tripId && s.placed[k].c.terms == c.terms
    requires outcome.request == if outcome.Created? then s.placed[k].request else StoredForm(s.placed[k].request)
    requires FromRow(s.db.orders[k]) == Some(StoredForm(s.placed[k].request))
    ensures AnswersWith(s, c, outcome, k)
    ensures outcome.Created? || TextsWellFormed(c.terms) ==> outcome.request.terms == c.terms
  {
    ScrubTermsKeepsWellFormed(c.terms);
  }

  lemma AnswerIsPlaced(s: State, tx: nat) returns (k: nat)
    requires OrdersInv(s) && ReadsBack(s) && AllHonest(s) && AllCommands(s, Prepared)
    requires tx in s.txs && s.txs[tx].Answered? && !s.txs[tx].outcome.Refused?
    ensures k < |s.placed| == |s.db.orders| && AnswersWith(s, s.txs[tx].c, s.txs[tx].outcome, k)
    ensures s.txs[tx].outcome.Created? || TextsWellFormed(s.txs[tx].c.terms) ==>
              s.txs[tx].outcome.request.terms == s.txs[tx].c.terms
  {
    var c, outcome := s.txs[tx].c, s.txs[tx].outcome;
    assert Honest(s.placed, s.txs[tx]);
    assert CommandOf(s.txs[tx]) == Some(c);
    k := GivenIsPlaced(s.placed, c, outcome);
    assert PlacedInv(s, k);
    PreparedAgree(s, c, k);
    PlacedAnswers(s, c, outcome, k);
  }

  /**
   When every command was prepared as the use case prepares it, an answer that carries a
   request carries one that was created under the same customer and key for the same trip and
   the same normalised terms: itself when created, its stored form when replayed. The order
   table reads back as that stored form, so the terms answered are the terms asked for, save
   that a replay shows a lone surrogate as U+FFFD.
   */
  lemma AnswersAreTheSameRequest(clock: int, actions: seq<Action>, tx: nat)
    requires forall i :: 0 <= i < |actions| && actions[i].Begin? ==> Prepared(actions[i].c)
    requires tx in Run(Init(clock), actions).txs && Run(Init(clock), actions).txs[tx].Answered?
    requires !Run(Init(clock), actions).txs[tx].outcome.Refused?
    ensures var s := Run(Init(clock), actions);
            var c, outcome := s.txs[tx].c, s.txs[tx].outcome;
            && (exists k :: 0 <= k < |s.placed| == |s.db.orders| && AnswersWith(s, c, outcome, k))
            && (outcome.Created? || TextsWellFormed(c.terms) ==> outcome.request.terms == c.terms)
  {
    var s0, s := Init(clock), Run(Init(clock), actions);
    InitInv(clock);
    InvRun(s0, actions);
    HonestRun(s0, actions);
    CommandsRun(s0, actions, Prepared);
    var k := AnswerIsPlaced(s, tx);
  }
}
