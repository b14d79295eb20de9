/**
 What a submission and an edit are answered and what they write, read off the orders placed, the
 rows and the commands: which attempt is given a stored order and which is told that its key is
 another request's, which goes on, which is placed, and why the others are not.
 */
module OrderAnswers {
  import opened Wrappers
  import opened Text
  import Trips
  import opened OrderTerms
  import opened OrderSubmission
  import opened OrderRuns
  import opened OrderInvariants
  import opened OrderTheorems
  import opened OrderReplays
  import opened OrderCalls

  // ---------------------------------------------------------------- keys

  /** The order was placed under the command's customer and key. */
  predicate Under(p: Placed, c: Command) {
    p.c.customer == c.customer && p.c.keyDigest == c.keyDigest
  }

  /** Order `k` is the latest under the command's key, and was placed less than seven days ago. */
  predicate Remembered(s: State, c: Command, k: nat) {
    && k < |s.placed| && Under(s.placed[k], c)
    && (forall i :: k < i < |s.placed| ==> !Under(s.placed[i], c))
    && s.clock < s.placed[k].request.submittedAt + 604_800_000
  }

  /** The latest order under the command's key, if any, is seven days old. */
  predicate Forgotten(s: State, c: Command) {
    forall k :: 0 <= k < |s.placed| ==> !Remembered(s, c, k)
  }

  lemma OneRemembered(s: State, c: Command, k: nat)
    ensures LastPlaced(s.placed, SlotOf(c)) == Some(k) <==>
              && k < |s.placed| && Under(s.placed[k], c)
              && (forall i :: k < i < |s.placed| ==> !Under(s.placed[i], c))
  {
    var last := LastPlaced(s.placed, SlotOf(c));
    if last.Some? && k < |s.placed| && Under(s.placed[k], c)
       && (forall i :: k < i < |s.placed| ==> !Under(s.placed[i], c)) {
      assert Under(s.placed[last.value], c);
      assert !(k < last.value) && !(last.value < k);
    }
    if last.None? && k < |s.placed| {
      assert s.placed[k] in s.placed;
    }
  }

  /** The claim answers with the stored form of the remembered order, if it was of the same request. */
  lemma ClaimRemembers(s: State, c: Command, k: nat)
    requires OrdersInv(s) && ResultInv(s, SlotOf(c)) && ReadsBack(s) && Remembered(s, c, k)
    ensures Claim(s.db, c, s.clock)
         == if s.placed[k].c.fingerprint == c.fingerprint then Replay(Some(StoredForm(s.placed[k].request))) else Mismatch
  {
    OneRemembered(s, c, k);
    assert PlacedInv(s, k);
  }

  lemma ClaimForgets(s: State, c: Command)
    requires ResultInv(s, SlotOf(c)) && Forgotten(s, c)
    ensures Claim(s.db, c, s.clock).Claimed?
    ensures Claim(s.db, c, s.clock).prior
         == var last := LastPlaced(s.placed, SlotOf(c));
            if last.None? then None else Some(ResultOf(s.placed[last.value]))
  {
    var last := LastPlaced(s.placed, SlotOf(c));
    if last.Some? {
      OneRemembered(s, c, last.value);
      assert !Remembered(s, c, last.value);
    }
  }

  // ---------------------------------------------------------------- checks

  predicate Offered(row: Trips.Offer, terms: Terms) {
    if terms.Shop? then Trips.ShopForMe in row.schedule.serviceModes else Trips.CarryMyItem in row.schedule.serviceModes
  }

  /** What a trip's row must meet when a submission reads it, in the order in which it is checked. */
  function EligibilityChecks(s: State, c: Command): seq<(bool, Reason)> {
    [(c.tripId in s.db.trips, TripMissing)]
    + if c.tripId !in s.db.trips then []
      else
        var row := s.db.trips[c.tripId];
        [(row.owner != c.customer, SelfOrder), (row.status == Trips.Published, OfferIneligible),
         (Offered(row, c.terms), ModeUnavailable),
         (row.schedule.requestOpenAt <= s.clock < row.schedule.requestDeadline, OfferIneligible)]
  }

  lemma EligibleIff(s: State, c: Command, reply: ClaimReply)
    requires reply.Claimed?
    ensures Verdict(c, s.clock, reply, Lookup(s.db, c.tripId))
         == var refusal := FirstFailing(EligibilityChecks(s, c));
            if refusal.Some? then Some(Refused(refusal.value)) else None
  {
    var checks := EligibilityChecks(s, c);
    forall k | 0 <= k < |checks| {
      FailingFrom(checks, k);
    }
    assert checks == checks[0..] && checks[|checks|..] == [];
  }

  // ---------------------------------------------------------------- from the reads to the lock

  /** A step of a call that does not start an attempt leaves it what it has read. */
  lemma ReadBefore(s: State, a: Action, tx: nat)
    requires tx in Apply(s, a).txs && Attempting(Apply(s, a).txs[tx]) && !Starts(s, a, tx)
    ensures tx in s.txs && Attempting(s.txs[tx]) && ReadOf(Apply(s, a).txs[tx]) == ReadOf(s.txs[tx])
  {
    if !OfCall(a, tx) {
      OthersStay(s, a, tx);
    }
  }

  /** Every attempt was started by the step that made its reads. */
  lemma {:induction false} AttemptStarted(clock: int, actions: seq<Action>, tx: nat, j: nat) returns (m: nat)
    requires j <= |actions| && tx in At(clock, actions, j).txs && Attempting(At(clock, actions, j).txs[tx])
    ensures m < j && Starts(At(clock, actions, m), actions[m], tx)
    ensures ReadIn(At(clock, actions, m), At(clock, actions, j).txs[tx])
    ensures actions[m].Begin? ==> actions[m].c == At(clock, actions, j).txs[tx].c
    decreases j
  {
    assert At(clock, actions, 0) == Init(clock);
    AtNext(clock, actions, j - 1);
    var s := At(clock, actions, j - 1);
    if Starts(s, actions[j - 1], tx) {
      m := j - 1;
    } else {
      ReadBefore(s, actions[j - 1], tx);
      m := AttemptStarted(clock, actions, tx, j - 1);
    }
  }

  predicate KeyFree(s: State, c: Command) {
    forall u :: u in s.txs && HoldsKey(s.txs[u]) ==> SlotOf(s.txs[u].c) != SlotOf(c)
  }

  /**
   An attempt that read in `at` and has its lock: within seven days of the latest order under
   its key it leaves with the stored form of that order, or, when its fingerprint is another,
   with a conflict. Otherwise its key lets it go on, and the trip it read decides.
   */
  ghost predicate AnsweredByKey(at: State, c: Command, next: Tx) {
    && (forall k: nat :: Remembered(at, c, k) ==>
          && next.Leaving?
          && next.outcome == (if at.placed[k].c.fingerprint == c.fingerprint
                              then Replayed(StoredForm(at.placed[k].request)) else Refused(KeyConflict)))
    && (Forgotten(at, c) ==>
          var refusal := FirstFailing(EligibilityChecks(at, c));
          if refusal.Some? then next.Leaving? && next.outcome == Refused(refusal.value)
          else next.Ready? && c.tripId in at.db.trips && next.read == at.db.trips[c.tripId])
    && (next.Leaving? && next.outcome == Refused(KeyConflict) <==>
          exists k: nat :: Remembered(at, c, k) && at.placed[k].c.fingerprint != c.fingerprint)
  }

  lemma LockAnswersByKey(at: State, txs: map<nat, Tx>, t: Tx)
    requires t.Begun? && ReadIn(at, t) && !Locked(txs, SlotOf(t.c))
    requires OrdersInv(at) && ResultInv(at, SlotOf(t.c)) && ReadsBack(at)
    ensures AnsweredByKey(at, t.c, AfterLock(txs, t))
    ensures AfterLock(txs, t).c == t.c
  {
    if Forgotten(at, t.c) {
      ClaimForgets(at, t.c);
      EligibleIff(at, t.c, t.reply);
      NoConflict(at, t.c);
    } else {
      var k: nat :| k < |at.placed| && Remembered(at, t.c, k);
      ClaimRemembers(at, t.c, k);
      forall j: nat | Remembered(at, t.c, j)
        ensures j == k
      {
        OneRemembered(at, t.c, j);
        OneRemembered(at, t.c, k);
      }
    }
  }

  lemma NoConflict(s: State, c: Command)
    ensures FirstFailing(EligibilityChecks(s, c)) != Some(KeyConflict)
    ensures FirstFailing(EligibilityChecks(s, c)).None? ==> c.tripId in s.db.trips
  {
    EligibleIff(s, c, Claimed(None));
  }

  /**
   Over all runs: an attempt that takes its lock was started by a step that read in `at`, and
   is answered as its key was then. Taking the lock leaves the tables as they are.
   */
  lemma LockedAttempt(clock: int, actions: seq<Action>, tx: nat) returns (m: nat)
    requires tx in Run(Init(clock), actions).txs && Run(Init(clock), actions).txs[tx].Begun?
    requires KeyFree(Run(Init(clock), actions), Run(Init(clock), actions).txs[tx].c)
    ensures m < |actions| && Starts(At(clock, actions, m), actions[m], tx)
    ensures var (at, s) := (At(clock, actions, m), Run(Init(clock), actions));
            var next := Apply(s, Lock(tx));
            && next == s.(txs := next.txs) && tx in next.txs
            && (actions[m].Begin? ==> actions[m].c == s.txs[tx].c)
            && AnsweredByKey(at, s.txs[tx].c, next.txs[tx])
  {
    assert actions[..|actions|] == actions;
    m := AttemptStarted(clock, actions, tx, |actions|);
    var at, s := At(clock, actions, m), Run(Init(clock), actions);
    InitInv(clock);
    InvRun(Init(clock), actions[..m]);
    HonestRun(Init(clock), actions[..m]);
    LockAnswersByKey(at, s.txs, s.txs[tx]);
  }

  /** A new call reads at once and makes its first attempt; a waiting one makes the next; nothing else changes. */
  lemma StartIsExact(s: State, a: Action, tx: nat)
    requires (a.Begin? || a.Retry?) && a.tx == tx
    ensures var next := Apply(s, a);
            && next == s.(txs := next.txs)
            && (!Starts(s, a, tx) ==> next == s)
            && (Starts(s, a, tx) ==>
                  && tx in next.txs && next.txs == s.txs[tx := next.txs[tx]] && next.txs[tx].Begun?
                  && next.txs[tx].id == a.id && next.txs[tx].observedAt == s.clock
                  && next.txs[tx].c == (if a.Begin? then a.c else s.txs[tx].c)
                  && next.txs[tx].attempt == if a.Begin? then 1 else s.txs[tx].attempt + 1)
  {
  }

  /** While another call holds its key an attempt is told so and is over; it writes nothing. */
  lemma LockedOut(s: State, tx: nat)
    requires tx in s.txs && s.txs[tx].Begun? && !KeyFree(s, s.txs[tx].c)
    ensures Apply(s, Lock(tx)) == s.(txs := s.txs[tx := Answered(s.txs[tx].c, Refused(KeyInProgress))])
  {
    var u :| u in s.txs && HoldsKey(s.txs[u]) && SlotOf(s.txs[u].c) == SlotOf(s.txs[tx].c);
    assert Locked(s.txs, SlotOf(s.txs[tx].c));
  }

  /** An attempt that leaves with an answer gives it whatever the others do meanwhile, and writes nothing. */
  lemma {:induction false} LeavesWithIt(s: State, others: seq<Action>, tx: nat)
    requires tx in s.txs && s.txs[tx].Leaving? && forall a <- others :: !OfCall(a, tx)
    ensures var later := Run(s, others);
            && tx in later.txs && later.txs[tx] == s.txs[tx]
            && Apply(later, Commit(tx, true)) == later.(txs := later.txs[tx := Answered(s.txs[tx].c, s.txs[tx].outcome)])
    decreases |others|
  {
    if |others| > 0 {
      OthersStay(s, others[0], tx);
      LeavesWithIt(Apply(s, others[0]), others[1..], tx);
    }
  }

  lemma PreparedCommand(s: State, tx: nat)
    requires AllCommands(s, Prepared) && tx in s.txs && s.txs[tx].Begun?
    ensures Prepared(s.txs[tx].c)
  {
    assert CommandOf(s.txs[tx]) == Some(s.txs[tx].c);
  }

  lemma SameRequestIff(s: State, c: Command, k: nat)
    requires AllCommands(s, Prepared) && Prepared(c) && k < |s.placed|
    ensures s.placed[k].c.fingerprint == c.fingerprint
       <==> s.placed[k].c.tripId == c.tripId && s.placed[k].c.terms == c.terms
  {
    SamePrepared(s.placed[k].c, c);
  }

  lemma SamePrepared(a: Command, b: Command)
    requires Prepared(a) && Prepared(b)
    ensures a.fingerprint == b.fingerprint <==> a.tripId == b.tripId && a.terms == b.terms
  {
    FingerprintIff(a.tripId, a.terms, b.tripId, b.terms);
  }

  /** Every command was prepared as the use case prepares it: normalised terms, and the fingerprint of trip and terms. */
  predicate AllPrepared(actions: seq<Action>) {
    forall i :: 0 <= i < |actions| && actions[i].Begin? ==> Prepared(actions[i].c)
  }

  lemma CommandsBy(clock: int, actions: seq<Action>, m: nat, ok: Command -> bool)
    requires m <= |actions| && forall i :: 0 <= i < |actions| && actions[i].Begin? ==> ok(actions[i].c)
    ensures AllCommands(At(clock, actions, m), ok)
  {
    CommandsRun(Init(clock), actions[..m], ok);
  }

  lemma RequestsCompare(clock: int, actions: seq<Action>, tx: nat, m: nat, k: nat)
    requires AllPrepared(actions) && m <= |actions|
    requires tx in Run(Init(clock), actions).txs && Run(Init(clock), actions).txs[tx].Begun?
    ensures var (at, c) := (At(clock, actions, m), Run(Init(clock), actions).txs[tx].c);
            k < |at.placed| ==>
              (at.placed[k].c.fingerprint == c.fingerprint
               <==> at.placed[k].c.tripId == c.tripId && at.placed[k].c.terms == c.terms)
  {
    var at, s := At(clock, actions, m), Run(Init(clock), actions);
    CommandsBy(clock, actions, m, Prepared);
    CommandsBy(clock, actions, |actions|, Prepared);
    assert actions[..|actions|] == actions;
    PreparedCommand(s, tx);
    if k < |at.placed| {
      SameRequestIff(at, s.txs[tx].c, k);
    }
  }

  /**
   A request repeated within seven days. When every command was prepared as the use case
   prepares it, an attempt under the key of an order that was placed less than seven days before
   it read, the latest under that key, leaves with that order in its stored form if it is for the
   same trip on the same normalised terms, and with a conflict if it is not.
   */
  lemma RepeatsAreReplayed(clock: int, actions: seq<Action>, tx: nat, k: nat) returns (m: nat)
    requires AllPrepared(actions)
    requires tx in Run(Init(clock), actions).txs && Run(Init(clock), actions).txs[tx].Begun?
    requires KeyFree(Run(Init(clock), actions), Run(Init(clock), actions).txs[tx].c)
    ensures m < |actions| && Starts(At(clock, actions, m), actions[m], tx)
    ensures var (at, s) := (At(clock, actions, m), Run(Init(clock), actions));
            var (c, next) := (s.txs[tx].c, Apply(s, Lock(tx)));
            Remembered(at, c, k) ==>
              var p := at.placed[k];
              && tx in next.txs && next.txs[tx].Leaving?
              && next.txs[tx].outcome == if p.c.tripId == c.tripId && p.c.terms == c.terms
                                         then Replayed(StoredForm(p.request)) else Refused(KeyConflict)
  {
    m := LockedAttempt(clock, actions, tx);
    RequestsCompare(clock, actions, tx, m, k);
  }

  // ---------------------------------------------------------------- from the lock to the commit

  predicate KeyUsed(at: State, c: Command) {
    exists k :: 0 <= k < |at.placed| && Under(at.placed[k], c)
  }

  /** Since the reads in `at` no order was placed under the key. */
  predicate KeyUnmoved(at: State, s: State, c: Command) {
    forall k :: |at.placed| <= k < |s.placed| ==> !Under(s.placed[k], c)
  }

  /** What an attempt must meet to place its order, in the order in which its writes are guarded. */
  function CommitChecks(at: State, s: State, t: Tx): seq<(bool, Reason)>
    requires t.Ready?
  {
    var (c, read, now) := (t.c, t.read.schedule, s.clock);
    [(KeyUsed(at, c) ==> KeyUnmoved(at, s, c), Overtaken),
     ((t.read.owner, t.read.profile) in s.db.sellers, OfferIneligible),
     (RequestedCapacityGrams(c.terms) <= 10 * t.read.remainingCapacity, CapacityUnavailable),
     (c.tripId in s.db.trips && s.db.trips[c.tripId].version == t.read.version
        && read.requestOpenAt <= now < read.requestDeadline, RevisionStale),
     (read.requestDeadline < read.departureAt < read.estimatedArrivalAt
        && 3 <= Characters(c.terms.itemDescription), StorageRefused),
     (forall o <- s.db.orders :: o.id != t.id, IdTaken),
     (KeyUnmoved(at, s, c), Overtaken)]
  }

  lemma SevenChecks(c: seq<(bool, Reason)>)
    requires |c| == 7
    ensures FirstFailing(c)
         == if !c[0].0 then Some(c[0].1) else if !c[1].0 then Some(c[1].1) else if !c[2].0 then Some(c[2].1)
            else if !c[3].0 then Some(c[3].1) else if !c[4].0 then Some(c[4].1) else if !c[5].0 then Some(c[5].1)
            else if !c[6].0 then Some(c[6].1) else None
  {
    forall k | 0 <= k < 7 {
      FailingFrom(c, k);
    }
    assert c == c[0..] && c[7..] == [];
  }

  /** The record of a key is the one the attempt saw exactly if no order was placed under it since. */
  lemma RecordUnmoved(at: State, s: State, c: Command)
    requires ResultInv(at, SlotOf(c)) && ResultInv(s, SlotOf(c)) && Spaced(s.placed) && at.placed <= s.placed
    requires Forgotten(at, c)
    ensures Claim(at.db, c, at.clock).Claimed?
    ensures var (prior, slot) := (Claim(at.db, c, at.clock).prior, SlotOf(c));
            && (prior.Some? <==> KeyUsed(at, c))
            && (prior.Some? ==> (slot in s.db.results && s.db.results[slot] == prior.value <==> KeyUnmoved(at, s, c)))
            && (prior.None? ==> (slot !in s.db.results <==> KeyUnmoved(at, s, c)))
  {
    ClaimForgets(at, c);
    var before, now := LastPlaced(at.placed, SlotOf(c)), LastPlaced(s.placed, SlotOf(c));
    if before.Some? {
      assert Under(at.placed[before.value], c);
      assert s.placed[before.value] in s.placed;
    }
    if now.Some? {
      assert Under(s.placed[now.value], c);
      if now.value < |at.placed| {
        assert KeyUnmoved(at, s, c);
        assert before == now by {
          OneRemembered(at, c, now.value);
        }
      }
    } else {
      forall k | |at.placed| <= k < |s.placed|
        ensures !Under(s.placed[k], c)
      {
        assert s.placed[k] in s.placed;
      }
    }
  }

  lemma FoundIffUsed(orders: seq<Row>, id: Text)
    ensures FindOrder(orders, id).None? <==> forall o <- orders :: o.id != id
  {
  }

  /** An attempt that was let go on had a free key, and a trip it may order on. */
  lemma ReadyMeans(at: State, s: State, t: Tx)
    requires t.Ready? && ReadIn(at, t) && OrdersInv(at) && ReadsBack(at) && ResultInv(at, SlotOf(t.c))
    requires TripsInv(s) && TxInv(s, t)
    ensures Forgotten(at, t.c) && Claim(at.db, t.c, at.clock) == Claimed(t.prior)
    ensures t.c.tripId in at.db.trips && t.read == at.db.trips[t.c.tripId]
    ensures t.read.id == t.c.tripId && t.read.version > 0
    ensures t.read.owner != t.c.customer && t.read.status == Trips.Published && Offered(t.read, t.c.terms)
  {
    forall k | 0 <= k < |at.placed|
      ensures !Remembered(at, t.c, k)
    {
      if Remembered(at, t.c, k) {
        ClaimRemembers(at, t.c, k);
      }
    }
    assert PastInv(s, (t.read.id, t.read.version));
  }

  /** The row the attempt read can be reserved on exactly if it is still the trip's row, and open. */
  lemma ReservesIff(at: State, s: State, t: Tx)
    requires t.Ready? && TripsInv(s) && Seen(s, t.read) && t.read.id == t.c.tripId
    requires t.read.status == Trips.Published && UnitsOf(t.c) <= t.read.remainingCapacity
    ensures Reserve(s.db, t.read.id, t.read.version, UnitsOf(t.c), s.clock).Some? <==> CommitChecks(at, s, t)[3].0
  {
    if t.read.id in s.db.trips && s.db.trips[t.read.id].version == t.read.version {
      SameVersionSameRow(s, t.read);
    }
  }

  lemma StorableIff(at: State, s: State, t: Tx)
    requires t.Ready? && Normalized(t.c.terms) && CommitChecks(at, s, t)[3].0
    requires t.read.owner != t.c.customer && t.read.version > 0
    ensures Accepted(BuildRequest(t.c, t.id, t.read, s.clock)).Some? <==> CommitChecks(at, s, t)[4].0
  {
    TermsAllowed(t.c, t.id, t.read, s.clock);
  }

  lemma RoomIff(c: Command, remaining: int)
    requires Normalized(c.terms)
    ensures UnitsOf(c) <= remaining <==> RequestedCapacityGrams(c.terms) <= 10 * remaining
  {
    UnitsAreExact(c);
  }

  lemma FinishIsExact(at: State, s: State, t: Tx)
    requires t.Ready? && ReadIn(at, t) && Normalized(t.c.terms)
    requires OrdersInv(at) && ReadsBack(at) && ResultInv(at, SlotOf(t.c))
    requires TripsInv(s) && TxInv(s, t) && ResultInv(s, SlotOf(t.c)) && Spaced(s.placed) && at.placed <= s.placed
    ensures FirstFailing(CommitChecks(at, s, t))
         == var done := Finish(s.db, t.c, t.id, t.prior, t.read, s.clock);
            if done.Err? then Some(done.error) else None
  {
    ReadyMeans(at, s, t);
    RecordUnmoved(at, s, t.c);
    FinishOnTables(at, s, t);
  }

  lemma FinishOnTables(at: State, s: State, t: Tx)
    requires t.Ready? && Normalized(t.c.terms) && TripsInv(s) && Seen(s, t.read) && t.read.id == t.c.tripId
    requires t.read.owner != t.c.customer && t.read.status == Trips.Published && t.read.version > 0
    requires t.prior.Some? <==> KeyUsed(at, t.c)
    requires t.prior.Some? ==>
               (SlotOf(t.c) in s.db.results && s.db.results[SlotOf(t.c)] == t.prior.value <==> KeyUnmoved(at, s, t.c))
    requires t.prior.None? ==> (SlotOf(t.c) !in s.db.results <==> KeyUnmoved(at, s, t.c))
    ensures FirstFailing(CommitChecks(at, s, t))
         == var done := Finish(s.db, t.c, t.id, t.prior, t.read, s.clock);
            if done.Err? then Some(done.error) else None
  {
    var checks := CommitChecks(at, s, t);
    RoomIff(t.c, t.read.remainingCapacity);
    if checks[2].0 {
      ReservesIff(at, s, t);
      if checks[3].0 {
        StorableIff(at, s, t);
      }
    }
    FoundIffUsed(s.db.orders, t.id);
    FinishInOrder(s, t, checks);
  }

  lemma FinishInOrder(s: State, t: Tx, checks: seq<(bool, Reason)>)
    requires t.Ready? && |checks| == 7
    requires checks[0] == (t.prior.Some? ==> SlotOf(t.c) in s.db.results && s.db.results[SlotOf(t.c)] == t.prior.value,
                           Overtaken)
    requires checks[1] == ((t.read.owner, t.read.profile) in s.db.sellers, OfferIneligible)
    requires checks[2] == (UnitsOf(t.c) <= t.read.remainingCapacity, CapacityUnavailable)
    requires checks[3].1 == RevisionStale && checks[4].1 == StorageRefused
    requires checks[2].0 ==>
               (checks[3].0 <==> Reserve(s.db, t.read.id, t.read.version, UnitsOf(t.c), s.clock).Some?)
    requires checks[2].0 && checks[3].0 ==>
               (checks[4].0 <==> Accepted(BuildRequest(t.c, t.id, t.read, s.clock)).Some?)
    requires checks[5] == (FindOrder(s.db.orders, t.id).None?, IdTaken)
    requires checks[6].1 == Overtaken && (t.prior.Some? && checks[0].0 ==> checks[6].0)
    requires t.prior.None? ==> (checks[6].0 <==> SlotOf(t.c) !in s.db.results)
    ensures FirstFailing(checks)
         == var done := Finish(s.db, t.c, t.id, t.prior, t.read, s.clock);
            if done.Err? then Some(done.error) else None
  {
    SevenChecks(checks);
    WriteIsNested(s.db, SlotOf(t.c), t.prior, t.read, UnitsOf(t.c), s.clock,
                  Accepted(BuildRequest(t.c, t.id, t.read, s.clock)), ResultFor(t.c, t.id, s.clock));
  }

  lemma WriteIsNested(
      db: Database, slot: Slot, prior: Option<StoredResult>, trip: Trips.Offer, units: int, at: int, row: Option<Row>,
      result: StoredResult)
    ensures var done := Write(db, slot, prior, trip, units, at, row, result);
            (if done.Err? then Some(done.error) else None)
            == if prior.Some? && !(slot in db.results && db.results[slot] == prior.value) then Some(Overtaken)
               else if (trip.owner, trip.profile) !in db.sellers then Some(OfferIneligible)
               else if trip.remainingCapacity < units then Some(CapacityUnavailable)
               else if Reserve(db, trip.id, trip.version, units, at).None? then Some(RevisionStale)
               else if row.None? then Some(StorageRefused)
               else if FindOrder(db.orders, result.requestId).Some? then Some(IdTaken)
               else if prior.None? && slot in db.results then Some(Overtaken)
               else None
  {
  }

  /** The request has what its command asked for and what its trip's row was. */
  predicate RequestedFrom(r: Request, c: Command, id: Text, row: Trips.Offer, now: int) {
    && r.id == id && r.tripId == c.tripId && r.customer == c.customer && r.terms == c.terms && r.submittedAt == now
    && r.mode == (if c.terms.Shop? then Trips.ShopForMe else Trips.CarryMyItem)
    && r.reservedCapacityGrams
       == (if c.terms.Shop? then c.terms.requestedCapacityGrams else c.terms.declaredWeightGrams)
    && r.seller == row.owner && r.profile == row.profile && r.sourceOfferVersion == row.version
    && r.originLabel == row.schedule.originLabel && r.destinationLabel == row.schedule.destinationLabel
    && r.orderOpenAt == row.schedule.requestOpenAt && r.orderCloseAt == row.schedule.requestDeadline
    && r.departureAt == row.schedule.departureAt && r.estimatedArrivalAt == row.schedule.estimatedArrivalAt
  }

  /** The trip's row less the grams asked for, one version on. */
  predicate ReservedFrom(next: Trips.Offer, row: Trips.Offer, terms: Terms) {
    && next == row.(remainingCapacity := next.remainingCapacity, version := row.version + 1)
    && 10 * (row.remainingCapacity - next.remainingCapacity)
       == (if terms.Shop? then terms.requestedCapacityGrams else terms.declaredWeightGrams)
  }

  /** The trip's reservation, the order's row and the key's result; nothing else is in the tables that was not before. */
  ghost predicate TablesWritten(
      db: Database, after: Database, c: Command, id: Text, row: Trips.Offer, r: Request, at: int)
  {
    && c.tripId in db.trips && db.trips[c.tripId] == row
    && c.tripId in after.trips && ReservedFrom(after.trips[c.tripId], row, c.terms)
    && after.trips == db.trips[c.tripId := after.trips[c.tripId]]
    && |after.orders| == |db.orders| + 1 && db.orders <= after.orders
    && FromRow(after.orders[|db.orders|]) == Some(StoredForm(r))
    && after.results
       == db.results[Slot(c.customer, c.keyDigest) := StoredResult(c.fingerprint, id, at, at + 604_800_000)]
    && after.sellers == db.sellers
  }

  /** One order, its reservation and its result are written together; the answer may be lost on its way. */
  ghost predicate Writes(s: State, next: State, tx: nat, t: Tx, heard: bool)
    requires t.Ready?
  {
    && |next.placed| == |s.placed| + 1 && s.placed <= next.placed
    && var (c, p) := (t.c, next.placed[|s.placed|]);
    && p.c == c && p.call == tx && RequestedFrom(p.request, c, t.id, t.read, s.clock)
    && TablesWritten(s.db, next.db, c, t.id, t.read, p.request, s.clock)
    && next.clock == s.clock
    && next.txs == s.txs[tx := Answered(c, if heard then Created(p.request) else Refused(ConnectionFailed))]
  }

  lemma BuiltFrom(c: Command, id: Text, row: Trips.Offer, now: int)
    requires row.id == c.tripId
    ensures RequestedFrom(BuildRequest(c, id, row, now), c, id, row, now)
  {
  }

  lemma CommitWrites(s: State, tx: nat, heard: bool)
    requires TripsInv(s) && tx in s.txs && s.txs[tx].Ready? && TxInv(s, s.txs[tx]) && Normalized(s.txs[tx].c.terms)
    requires Finish(s.db, s.txs[tx].c, s.txs[tx].id, s.txs[tx].prior, s.txs[tx].read, s.clock).Ok?
    ensures Writes(s, ApplyCommit(s, tx, heard), tx, s.txs[tx], heard)
  {
    var t, next := s.txs[tx], ApplyCommit(s, tx, heard);
    CommitRecords(s, tx, heard);
    FinishWrites(s, t);
    BuiltFrom(t.c, t.id, t.read, s.clock);
    assert next.placed[|s.placed|] == Placed(t.c, BuildRequest(t.c, t.id, t.read, s.clock), tx);
    CommitQuiet(s, tx, heard);
    CommitFinishes(s, tx, heard);
  }

  lemma CommitFinishes(s: State, tx: nat, heard: bool)
    requires tx in s.txs && s.txs[tx].Ready?
    requires Finish(s.db, s.txs[tx].c, s.txs[tx].id, s.txs[tx].prior, s.txs[tx].read, s.clock).Ok?
    ensures var t := s.txs[tx];
            ApplyCommit(s, tx, heard).db == Finish(s.db, t.c, t.id, t.prior, t.read, s.clock).value
  {
  }

  lemma FinishWrites(s: State, t: Tx)
    requires t.Ready? && TripsInv(s) && TxInv(s, t) && Normalized(t.c.terms)
    requires Finish(s.db, t.c, t.id, t.prior, t.read, s.clock).Ok?
    ensures TablesWritten(s.db, Finish(s.db, t.c, t.id, t.prior, t.read, s.clock).value, t.c, t.id, t.read,
                          BuildRequest(t.c, t.id, t.read, s.clock), s.clock)
  {
    FinishedOnCurrent(s, t);
    FinishTables(s.db, t.c, t.id, t.prior, t.read, s.clock);
  }

  lemma FinishTables(db: Database, c: Command, id: Text, prior: Option<StoredResult>, row: Trips.Offer, at: int)
    requires row.id == c.tripId && c.tripId in db.trips && db.trips[c.tripId] == row && Normalized(c.terms)
    requires Finish(db, c, id, prior, row, at).Ok?
    ensures TablesWritten(db, Finish(db, c, id, prior, row, at).value, c, id, row, BuildRequest(c, id, row, at), at)
  {
    AcceptedReadsBack(c, id, row, at);
    UnitsAreExact(c);
  }

  lemma CommitQuiet(s: State, tx: nat, heard: bool)
    ensures ApplyCommit(s, tx, heard).clock == s.clock && ApplyCommit(s, tx, heard).db.sellers == s.db.sellers
  {
  }

  /** The call after its commit is refused: a conflict is tried again, at most three times in all. */
  function AfterRefusal(t: Tx, reason: Reason): Tx
    requires t.Ready?
  {
    if reason != IdTaken && reason != Overtaken then Answered(t.c, Refused(reason))
    else if t.attempt < 3 then Waiting(t.c, t.attempt)
    else Answered(t.c, Refused(RetriesExhausted))
  }

  lemma CommitFails(s: State, tx: nat, heard: bool)
    requires tx in s.txs && s.txs[tx].Ready?
    requires Finish(s.db, s.txs[tx].c, s.txs[tx].id, s.txs[tx].prior, s.txs[tx].read, s.clock).Err?
    ensures var t := s.txs[tx];
            ApplyCommit(s, tx, heard)
            == s.(txs := s.txs[tx := AfterRefusal(t, Finish(s.db, t.c, t.id, t.prior, t.read, s.clock).error)])
  {
  }

  lemma AttemptBehind(clock: int, actions: seq<Action>, m: nat, tx: nat)
    requires AllPrepared(actions)
    requires m <= |actions| && tx in Run(Init(clock), actions).txs && Run(Init(clock), actions).txs[tx].Ready?
    ensures var (at, s) := (At(clock, actions, m), Run(Init(clock), actions));
            && Inv(at) && ReadsBack(at) && Inv(s) && at.placed <= s.placed
            && Normalized(s.txs[tx].c.terms)
  {
    var at, s := At(clock, actions, m), Run(Init(clock), actions);
    InitInv(clock);
    InvRun(Init(clock), actions[..m]);
    InvRun(Init(clock), actions);
    HonestRun(Init(clock), actions[..m]);
    CommandsRun(Init(clock), actions, Prepared);
    assert CommandOf(s.txs[tx]) == Some(s.txs[tx].c);
    RunSplits(Init(clock), actions, m);
    RunExtends(at, actions[m..]);
  }

  lemma {:induction false} RunSplits(s: State, actions: seq<Action>, m: nat)
    requires m <= |actions|
    ensures Run(s, actions) == Run(Run(s, actions[..m]), actions[m..])
    decreases |actions|
  {
    if m > 0 {
      RunSplits(Apply(s, actions[0]), actions[1..], m - 1);
      assert actions[1..][..m - 1] == actions[..m][1..];
    }
  }

  /** What the commit of the attempt `t`, which read in `at`, makes of the state `s`. */
  ghost predicate Committed(at: State, s: State, t: Tx, tx: nat, heard: bool, next: State)
    requires t.Ready?
  {
    var refusal := FirstFailing(CommitChecks(at, s, t));
    && t.c.tripId in at.db.trips && t.read == at.db.trips[t.c.tripId]
    && if refusal.None? then Writes(s, next, tx, t, heard)
       else next == s.(txs := s.txs[tx := AfterRefusal(t, refusal.value)])
  }

  lemma CommitAnswers(at: State, s: State, tx: nat, heard: bool)
    requires Inv(at) && ReadsBack(at) && Inv(s) && at.placed <= s.placed
    requires tx in s.txs && s.txs[tx].Ready? && ReadIn(at, s.txs[tx]) && Normalized(s.txs[tx].c.terms)
    ensures Committed(at, s, s.txs[tx], tx, heard, ApplyCommit(s, tx, heard))
  {
    var t := s.txs[tx];
    assert TxInv(s, t);
    assert ResultInv(at, SlotOf(t.c)) && ResultInv(s, SlotOf(t.c));
    ReadyMeans(at, s, t);
    FinishIsExact(at, s, t);
    if Finish(s.db, t.c, t.id, t.prior, t.read, s.clock).Ok? {
      CommitWrites(s, tx, heard);
    } else {
      CommitFails(s, tx, heard);
    }
  }

  /**
   Over all runs of prepared commands: an attempt that read in `at` places its order exactly if,
   at the commit, no order was placed under its key since, its seller is active, the row it read
   has room and is still the trip's row, the trip is open, the order table takes the columns and
   the identifier is new; and else is refused for the first of these that fails, and writes nothing.
   */
  lemma CommitIsExact(clock: int, actions: seq<Action>, tx: nat, heard: bool) returns (m: nat)
    requires AllPrepared(actions)
    requires tx in Run(Init(clock), actions).txs && Run(Init(clock), actions).txs[tx].Ready?
    ensures m < |actions| && Starts(At(clock, actions, m), actions[m], tx)
    ensures actions[m].Begin? ==> actions[m].c == Run(Init(clock), actions).txs[tx].c
    ensures var s := Run(Init(clock), actions);
            Committed(At(clock, actions, m), s, s.txs[tx], tx, heard, Apply(s, Commit(tx, heard)))
  {
    assert actions[..|actions|] == actions;
    m := AttemptStarted(clock, actions, tx, |actions|);
    AttemptBehind(clock, actions, m, tx);
    CommitAnswers(At(clock, actions, m), Run(Init(clock), actions), tx, heard);
    WritingStep(Run(Init(clock), actions), Commit(tx, heard));
  }

  // ---------------------------------------------------------------- what the order table takes

  predicate OptionalCharacters(t: Option<Text>, most: nat) {
    t.Some? ==> 1 <= Characters(t.value) <= most
  }

  predicate TermsTaken(terms: Terms, reservedGrams: int) {
    match terms
    case Shop(_, quantity, budget, _, _, variation) =>
      1 <= quantity <= 100 && 1 <= budget <= 2_000_000_000 && OptionalCharacters(variation, 200)
    case Carry(_, value, grams, length, width, height, handling) =>
      && 1 <= value <= 2_000_000_000 && grams == reservedGrams
      && 1 <= length <= 10_000 && 1 <= width <= 10_000 && 1 <= height <= 10_000 && OptionalCharacters(handling, 500)
  }

  /** Any request at all is taken by the order table exactly under these conditions. */
  lemma TakenIff(r: Request)
    ensures Accepted(r).Some? <==>
              && r.customer != r.seller && r.sourceOfferVersion > 0
              && 10 <= r.reservedCapacityGrams <= 100_000_000 && r.reservedCapacityGrams % 10 == 0
              && r.orderOpenAt < r.orderCloseAt < r.departureAt < r.estimatedArrivalAt
              && r.orderOpenAt <= r.submittedAt < r.orderCloseAt
              && 3 <= Characters(r.terms.itemDescription) <= 500
              && r.mode == (if r.terms.Shop? then Trips.ShopForMe else Trips.CarryMyItem)
              && TermsTaken(r.terms, r.reservedCapacityGrams)
  {
    RowIsExact(r);
    CharactersScrub(r.terms.itemDescription);
    if r.terms.Shop? && r.terms.variation.Some? {
      CharactersScrub(r.terms.variation.value);
    }
    if r.terms.Carry? && r.terms.handlingInstructions.Some? {
      CharactersScrub(r.terms.handlingInstructions.value);
    }
  }

  // ---------------------------------------------------------------- one submission alone

  /** The key's record has not expired. */
  predicate Live(db: Database, c: Command, observedAt: int) {
    && Slot(c.customer, c.keyDigest) in db.results
    && observedAt < db.results[Slot(c.customer, c.keyDigest)].expiresAt
  }

  predicate SameRequest(db: Database, c: Command)
    requires Slot(c.customer, c.keyDigest) in db.results
  {
    db.results[Slot(c.customer, c.keyDigest)].fingerprint == c.fingerprint
  }

  /** What a submission run alone must meet when it reads, in order. */
  function ReadChecks(db: Database, c: Command, observedAt: int): seq<(bool, Reason)> {
    [(!Live(db, c, observedAt), KeyConflict), (c.tripId in db.trips, TripMissing)]
    + if c.tripId !in db.trips then []
      else
        var row := db.trips[c.tripId];
        [(row.owner != c.customer, SelfOrder), (row.status == Trips.Published, OfferIneligible),
         (Offered(row, c.terms), ModeUnavailable),
         (row.schedule.requestOpenAt <= observedAt < row.schedule.requestDeadline, OfferIneligible)]
  }

  /** And when it writes. */
  function WriteChecks(db: Database, c: Command, id: Text, reservedAt: int): seq<(bool, Reason)>
    requires c.tripId in db.trips
  {
    var row := db.trips[c.tripId];
    var s := row.schedule;
    [((row.owner, row.profile) in db.sellers, OfferIneligible),
     (RequestedCapacityGrams(c.terms) <= 10 * row.remainingCapacity, CapacityUnavailable),
     (s.requestOpenAt <= reservedAt < s.requestDeadline, RevisionStale),
     (s.requestDeadline < s.departureAt < s.estimatedArrivalAt && 3 <= Characters(c.terms.itemDescription),
      StorageRefused),
     (forall o <- db.orders :: o.id != id, IdTaken)]
  }

  function AloneChecks(db: Database, c: Command, id: Text, observedAt: int, reservedAt: int): seq<(bool, Reason)> {
    ReadChecks(db, c, observedAt) + if c.tripId in db.trips then WriteChecks(db, c, id, reservedAt) else []
  }

  /** The tables after an order: one row, its reservation and its result are new. */
  ghost predicate OrderAdded(db: Database, after: Database, c: Command, id: Text, r: Request, at: int) {
    && c.tripId in db.trips && RequestedFrom(r, c, id, db.trips[c.tripId], at)
    && TablesWritten(db, after, c, id, db.trips[c.tripId], r, at)
  }

  lemma ReadsAlone(db: Database, c: Command, id: Text, observedAt: int, reservedAt: int)
    requires !Live(db, c, observedAt)
    ensures Claim(db, c, observedAt).Claimed?
    ensures var refusal := FirstFailing(ReadChecks(db, c, observedAt));
            if refusal.Some? then Submit(db, c, id, observedAt, reservedAt) == (db, Refused(refusal.value))
            else
              && c.tripId in db.trips
              && db.trips[c.tripId].owner != c.customer && db.trips[c.tripId].status == Trips.Published
              && CheckEligible(db.trips[c.tripId], c, observedAt).None?
  {
    var checks := ReadChecks(db, c, observedAt);
    forall k | 0 <= k < |checks| {
      FailingFrom(checks, k);
    }
    assert checks == checks[0..] && checks[|checks|..] == [];
  }

  lemma WritesAlone(db: Database, c: Command, id: Text, prior: Option<StoredResult>, reservedAt: int)
    requires Normalized(c.terms) && c.tripId in db.trips
    requires var row := db.trips[c.tripId];
             row.id == c.tripId && row.version > 0 && row.owner != c.customer && row.status == Trips.Published
    requires prior == if SlotOf(c) in db.results then Some(db.results[SlotOf(c)]) else None
    ensures FirstFailing(WriteChecks(db, c, id, reservedAt))
         == var done := Finish(db, c, id, prior, db.trips[c.tripId], reservedAt);
            if done.Err? then Some(done.error) else None
  {
    var checks, trip := WriteChecks(db, c, id, reservedAt), db.trips[c.tripId];
    forall k | 0 <= k < |checks| {
      FailingFrom(checks, k);
    }
    assert checks == checks[0..] && checks[|checks|..] == [];
    RoomIff(c, trip.remainingCapacity);
    if checks[2].0 {
      TermsAllowed(c, id, trip, reservedAt);
    }
    FoundIffUsed(db.orders, id);
    WriteIsNested(db, SlotOf(c), prior, trip, UnitsOf(c), reservedAt,
                  Accepted(BuildRequest(c, id, trip, reservedAt)), ResultFor(c, id, reservedAt));
  }

  lemma AloneChecked(db: Database, c: Command, id: Text, observedAt: int, reservedAt: int)
    requires Normalized(c.terms) && !Live(db, c, observedAt)
    requires c.tripId in db.trips ==> db.trips[c.tripId].id == c.tripId && db.trips[c.tripId].version > 0
    ensures Claim(db, c, observedAt).Claimed?
    ensures var refusal := FirstFailing(AloneChecks(db, c, id, observedAt, reservedAt));
            if refusal.Some? then Submit(db, c, id, observedAt, reservedAt) == (db, Refused(refusal.value))
            else
              && c.tripId in db.trips && CheckEligible(db.trips[c.tripId], c, observedAt).None?
              && Finish(db, c, id, Claim(db, c, observedAt).prior, db.trips[c.tripId], reservedAt).Ok?
  {
    ReadsAlone(db, c, id, observedAt, reservedAt);
    FailingAppended(ReadChecks(db, c, observedAt),
                    if c.tripId in db.trips then WriteChecks(db, c, id, reservedAt) else []);
    if FirstFailing(ReadChecks(db, c, observedAt)).None? {
      WritesAlone(db, c, id, Claim(db, c, observedAt).prior, reservedAt);
    }
  }

  lemma AloneWrites(db: Database, c: Command, id: Text, prior: Option<StoredResult>, reservedAt: int)
    requires Normalized(c.terms) && c.tripId in db.trips && db.trips[c.tripId].id == c.tripId
    requires Finish(db, c, id, prior, db.trips[c.tripId], reservedAt).Ok?
    ensures OrderAdded(db, Finish(db, c, id, prior, db.trips[c.tripId], reservedAt).value, c, id,
                       BuildRequest(c, id, db.trips[c.tripId], reservedAt), reservedAt)
  {
    BuiltFrom(c, id, db.trips[c.tripId], reservedAt);
    FinishTables(db, c, id, prior, db.trips[c.tripId], reservedAt);
  }

  /**
   A submission run alone on any tables. While its key has a live record it is answered with that
   order, or with a conflict; otherwise it is refused for the first requirement it does not meet;
   in all these cases nothing is written. Else its order is placed at the time of the reservation.
   */
  lemma AloneIsExact(db: Database, c: Command, id: Text, observedAt: int, reservedAt: int)
    requires Normalized(c.terms)
    requires c.tripId in db.trips ==> db.trips[c.tripId].id == c.tripId && db.trips[c.tripId].version > 0
    ensures var (after, outcome) := Submit(db, c, id, observedAt, reservedAt);
            var refusal := FirstFailing(AloneChecks(db, c, id, observedAt, reservedAt));
            if Live(db, c, observedAt) && SameRequest(db, c) then
              && after == db
              && var row := FindOrder(db.orders, db.results[Slot(c.customer, c.keyDigest)].requestId);
                 outcome == if row.Some? && FromRow(row.value).Some? then Replayed(FromRow(row.value).value)
                            else Refused(StorageRefused)
            else if refusal.Some? then after == db && outcome == Refused(refusal.value)
            else outcome.Created? && OrderAdded(db, after, c, id, outcome.request, reservedAt)
  {
    var checks := AloneChecks(db, c, id, observedAt, reservedAt);
    if Live(db, c, observedAt) {
      FailingAppended(ReadChecks(db, c, observedAt),
                      if c.tripId in db.trips then WriteChecks(db, c, id, reservedAt) else []);
      assert FirstFailing(ReadChecks(db, c, observedAt)) == Some(KeyConflict);
    } else {
      AloneChecked(db, c, id, observedAt, reservedAt);
      if FirstFailing(checks).None? {
        AloneWrites(db, c, id, Claim(db, c, observedAt).prior, reservedAt);
      }
    }
  }

  /** Without its actor's session, or without the lock of its key, an attempt answers so and writes nothing. */
  lemma AttemptIsExact(db: Database, c: Command, a: Attempt)
    ensures var (after, outcome) := Transaction(db, c, a);
            && (!a.current ==> after == db && outcome == Refused(ActorRefused))
            && (a.current && !a.acquired ==> after == db && outcome == Refused(KeyInProgress))
            && (a.current && a.acquired ==> (after, outcome) == Submit(db, c, a.id, a.observedAt, a.reservedAt))
  {
  }

  // ---------------------------------------------------------------- edits

  /** A draft is sent to moderation by its owner; a pending one is approved, or rejected with a reason. */
  predicate MayEdit(edit: Edit, row: Trips.Offer) {
    match edit
    case SendToModeration(actor) => actor == row.owner && row.status == Trips.Draft
    case Approve(_) => row.status == Trips.PendingModeration
    case Reject(reason) => row.status == Trips.PendingModeration && 2 <= |Trim(reason)| <= 500
  }

  /** The edited row differs from the one it was made from in this, and is one version on. */
  predicate EditedTo(edit: Edit, row: Trips.Offer, next: Trips.Offer) {
    match edit
    case SendToModeration(_) => next == row.(status := Trips.PendingModeration, version := row.version + 1)
    case Approve(publishedAt) =>
      next == row.(status := Trips.Published, publishedAt := Some(publishedAt), version := row.version + 1)
    case Reject(reason) =>
      next == row.(status := Trips.Rejected, moderationReason := Some(Trim(reason)), version := row.version + 1)
  }

  lemma EditedIff(row: Trips.Offer, edit: Edit)
    ensures EditOffer(row, edit).Some? <==> MayEdit(edit, row)
    ensures EditOffer(row, edit).Some? ==> EditedTo(edit, row, EditOffer(row, edit).value)
  {
  }

  lemma EditSaves(s: State, tx: nat)
    requires tx in s.txs && s.txs[tx].Editing?
    ensures var (next, t) := (ApplyCommitEdit(s, tx), s.txs[tx]);
            && next.txs == s.txs[tx := Closed] && next.placed == s.placed && next.clock == s.clock
            && if Saves(s, tx) then
                 var o := EditOffer(t.current, t.edit).value;
                 next.db == s.db.(trips := s.db.trips[o.id := o])
               else next.db == s.db
  {
  }

  /** An edit is saved exactly if it may be made and the row it was made from is still the trip's row. */
  lemma EditIsExact(s: State, tx: nat)
    requires TripsInv(s) && tx in s.txs && s.txs[tx].Editing? && TxInv(s, s.txs[tx])
    ensures var (next, edit, row) := (Apply(s, CommitEdit(tx)), s.txs[tx].edit, s.txs[tx].current);
            && next.txs == s.txs[tx := Closed] && next.placed == s.placed && next.clock == s.clock
            && if MayEdit(edit, row) && row.id in s.db.trips && s.db.trips[row.id].version == row.version then
                 && s.db.trips[row.id] == row
                 && next.db == s.db.(trips := next.db.trips) && row.id in next.db.trips
                 && next.db.trips == s.db.trips[row.id := next.db.trips[row.id]]
                 && EditedTo(edit, row, next.db.trips[row.id])
               else next.db == s.db
  {
    var t := s.txs[tx];
    WritingStep(s, CommitEdit(tx));
    EditSaves(s, tx);
    EditedIff(t.current, t.edit);
    if t.current.id in s.db.trips && s.db.trips[t.current.id].version == t.current.version {
      SameVersionSameRow(s, t.current);
    }
  }

  /** What a row can become: a rejected one nothing else, a published one only a published one with less room. */
  predicate Becomes(was: Trips.Offer, row: Trips.Offer) {
    && row.id == was.id && row.owner == was.owner && row.profile == was.profile && row.schedule == was.schedule
    && was.version <= row.version && row.remainingCapacity <= was.remainingCapacity
    && (was.status == Trips.Rejected || row.version == was.version ==> row == was)
    && (was.status == Trips.Published ==>
          row == was.(remainingCapacity := row.remainingCapacity, version := row.version))
  }

  lemma RowStep(s: State, a: Action, tripId: Text)
    requires Inv(s) && tripId in s.db.trips
    ensures tripId in Apply(s, a).db.trips && Becomes(s.db.trips[tripId], Apply(s, a).db.trips[tripId])
  {
    if Places(s, a) {
      PlacedRow(s, a, tripId);
    } else if a.CommitEdit? && a.tx in s.txs && s.txs[a.tx].Editing? {
      EditedRow(s, a.tx, tripId);
    } else {
      RowStays(s, a, tripId);
    }
  }

  lemma PlacedRow(s: State, a: Action, tripId: Text)
    requires Inv(s) && Places(s, a) && tripId in s.db.trips
    ensures tripId in Apply(s, a).db.trips && Becomes(s.db.trips[tripId], Apply(s, a).db.trips[tripId])
  {
    CommitAdds(s, a.tx, a.heard);
    WritingStep(s, a);
  }

  lemma EditedRow(s: State, tx: nat, tripId: Text)
    requires Inv(s) && tx in s.txs && s.txs[tx].Editing? && tripId in s.db.trips
    ensures var next := Apply(s, CommitEdit(tx));
            tripId in next.db.trips && Becomes(s.db.trips[tripId], next.db.trips[tripId])
  {
    assert TxInv(s, s.txs[tx]);
    EditIsExact(s, tx);
  }

  lemma RowStays(s: State, a: Action, tripId: Text)
    requires !Places(s, a) && !(a.CommitEdit? && a.tx in s.txs && s.txs[a.tx].Editing?) && tripId in s.db.trips
    ensures tripId in Apply(s, a).db.trips && Apply(s, a).db.trips[tripId] == s.db.trips[tripId]
  {
  }

  lemma {:induction false} RowRun(s: State, actions: seq<Action>, tripId: Text)
    requires Inv(s) && tripId in s.db.trips
    ensures tripId in Run(s, actions).db.trips && Becomes(s.db.trips[tripId], Run(s, actions).db.trips[tripId])
    decreases |actions|
  {
    if |actions| > 0 {
      RowStep(s, actions[0], tripId);
      InvStep(s, actions[0]);
      RowRun(Apply(s, actions[0]), actions[1..], tripId);
    }
  }

  /**
   In every run a moderator's decision is final: a rejected trip's row is never changed again,
   so it is never published; a published trip stays published and changes only in its version
   and in the capacity its orders take.
   */
  lemma DecisionsAreFinal(clock: int, actions: seq<Action>, more: seq<Action>, tripId: Text)
    requires tripId in Run(Init(clock), actions).db.trips
    ensures var s := Run(Init(clock), actions);
            && tripId in Run(s, more).db.trips
            && var (was, row) := (s.db.trips[tripId], Run(s, more).db.trips[tripId]);
            && (was.status == Trips.Rejected ==> row == was)
            && (was.status == Trips.Published ==>
                  && row.remainingCapacity <= was.remainingCapacity
                  && row == was.(remainingCapacity := row.remainingCapacity, version := row.version))
  {
    InitInv(clock);
    InvRun(Init(clock), actions);
    RowRun(Run(Init(clock), actions), more, tripId);
  }
}
