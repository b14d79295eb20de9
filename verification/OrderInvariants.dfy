/** Every step of the interleaved marketplace keeps its invariant. */
module OrderInvariants {
  import opened Wrappers
  import opened Text
  import opened Trips
  import opened OrderTerms
  import opened OrderSubmission
  import opened OrderRuns

  /** Nothing recorded is ever changed: rows and orders are only added. */
  ghost predicate Grows(s: State, after: State) {
    && s.clock <= after.clock
    && (forall key :: key in s.history ==> key in after.history && after.history[key] == s.history[key])
    && s.placed <= after.placed
  }

  lemma GrowsKeepsTx(s: State, after: State, t: Tx)
    requires Grows(s, after) && TxInv(s, t)
    ensures TxInv(after, t)
  {
  }

  /** One transaction moves on, and takes a key only if it is free. */
  lemma MoveKeepsTxs(s: State, after: State, tx: nat, t: Tx)
    requires TxsInv(s) && Grows(s, after) && after.txs == s.txs[tx := t] && TxInv(after, t)
    requires HoldsKey(t) ==> !Locked(s.txs, SlotOf(t.c))
    ensures TxsInv(after)
  {
    forall u | u in after.txs
      ensures TxInv(after, after.txs[u])
    {
      if u != tx {
        GrowsKeepsTx(s, after, s.txs[u]);
      }
    }
  }

  /** The invariants on the tables do not look at transactions, clock or sellers. */
  lemma SameTables(s: State, after: State)
    requires Inv(s)
    requires after.db == s.db.(sellers := after.db.sellers)
    requires after.history == s.history && after.placed == s.placed
    ensures TripsInv(after) && OrdersInv(after) && KeysInv(after)
  {
    forall t | t in after.db.trips
      ensures TripInv(after, t)
    {
      assert TripInv(s, t);
    }
    forall key | key in after.history
      ensures PastInv(after, key)
    {
      assert PastInv(s, key);
    }
    forall k | 0 <= k < |after.db.orders|
      ensures OrderInv(after, k) && PlacedInv(after, k)
    {
      assert OrderInv(s, k) && PlacedInv(s, k);
    }
    forall slot: Slot
      ensures ResultInv(after, slot)
    {
      assert ResultInv(s, slot);
    }
  }

  // ---------------------------------------------------------------- reading

  lemma ReadsAreTrue(s: State, c: Command, attempt: nat, id: Text)
    requires TripsInv(s)
    ensures TxInv(s, Reads(s, c, attempt, id))
  {
    if c.tripId in s.db.trips {
      assert TripInv(s, c.tripId);
    }
  }

  lemma BeginKeeps(s: State, tx: nat, c: Command, id: Text)
    requires Inv(s)
    ensures Inv(ApplyBegin(s, tx, c, id))
  {
    if tx !in s.txs {
      ReadsAreTrue(s, c, 1, id);
      ChangeKeeps(s, ApplyBegin(s, tx, c, id), tx, Reads(s, c, 1, id));
    }
  }

  lemma RetryKeeps(s: State, tx: nat, id: Text)
    requires Inv(s)
    ensures Inv(ApplyRetry(s, tx, id))
  {
    if tx in s.txs && s.txs[tx].Waiting? {
      var next := Reads(s, s.txs[tx].c, s.txs[tx].attempt + 1, id);
      ReadsAreTrue(s, s.txs[tx].c, s.txs[tx].attempt + 1, id);
      ChangeKeeps(s, ApplyRetry(s, tx, id), tx, next);
    }
  }

  /** Only one call moves on, and takes no key. */
  lemma ChangeKeeps(s: State, after: State, tx: nat, t: Tx)
    requires Inv(s) && after == s.(txs := s.txs[tx := t]) && TxInv(s, t) && !HoldsKey(t)
    ensures Inv(after)
  {
    SameTables(s, after);
    MoveKeepsTxs(s, after, tx, t);
  }

  lemma InterruptionKeeps(s: State, tx: nat)
    requires Inv(s)
    ensures Inv(ApplyConflict(s, tx)) && Inv(ApplyFail(s, tx)) && Inv(ApplyAbandon(s, tx))
  {
    if tx in s.txs && Attempting(s.txs[tx]) {
      var t := s.txs[tx];
      ChangeKeeps(s, ApplyConflict(s, tx), tx, AfterConflict(t.c, t.attempt));
      ChangeKeeps(s, ApplyFail(s, tx), tx, Answered(t.c, Refused(ConnectionFailed)));
    }
    if tx in s.txs && !s.txs[tx].Answered? {
      ChangeKeeps(s, ApplyAbandon(s, tx), tx, Closed);
    }
  }

  lemma LockKeeps(s: State, tx: nat)
    requires Inv(s)
    ensures Inv(ApplyLock(s, tx))
  {
    if tx in s.txs && s.txs[tx].Begun? {
      var after := ApplyLock(s, tx);
      SameTables(s, after);
      assert TxInv(s, s.txs[tx]);
      MoveKeepsTxs(s, after, tx, after.txs[tx]);
    }
  }

  lemma BeginEditKeeps(s: State, tx: nat, tripId: Text, edit: Edit)
    requires Inv(s)
    ensures Inv(ApplyBeginEdit(s, tx, tripId, edit))
  {
    if tx !in s.txs && tripId in s.db.trips {
      var after := ApplyBeginEdit(s, tx, tripId, edit);
      assert TripInv(s, tripId);
      SameTables(s, after);
      MoveKeepsTxs(s, after, tx, after.txs[tx]);
    }
  }

  // ---------------------------------------------------------------- new rows

  lemma {:induction false} NoOrdersOn(orders: seq<Row>, tripId: Text)
    requires forall o <- orders :: o.tripId != tripId
    ensures ReservedOn(orders, tripId) == 0 && OrdersOn(orders, tripId) == 0
  {
    if |orders| > 0 {
      NoOrdersOn(orders[..|orders| - 1], tripId);
    }
  }

  lemma PastBound(s: State, key: (Text, int))
    requires TripsInv(s)
    ensures key in s.history ==> key.0 in s.db.trips && key.1 <= s.db.trips[key.0].version
  {
    assert key in s.history ==> PastInv(s, key);
  }

  /** Only the row of one trip is new; the orders so far and their keys are as before. */
  ghost predicate AddsRow(s: State, after: State, o: Offer) {
    && after.db.trips == s.db.trips[o.id := o]
    && after.history == s.history[(o.id, o.version) := o]
    && (o.id, o.version) !in s.history
  }

  lemma AddedRowKeepsOrders(s: State, after: State, o: Offer)
    requires OrdersInv(s) && KeysInv(s) && AddsRow(s, after, o)
    requires after.db.orders == s.db.orders && after.db.results == s.db.results && after.placed == s.placed
    ensures OrdersInv(after) && KeysInv(after)
  {
    forall k | 0 <= k < |after.db.orders|
      ensures OrderInv(after, k) && PlacedInv(after, k)
    {
      assert OrderInv(s, k) && PlacedInv(s, k);
    }
    forall slot: Slot
      ensures ResultInv(after, slot)
    {
      assert ResultInv(s, slot);
    }
  }

  lemma AddedRowKeepsPast(s: State, after: State, o: Offer)
    requires TripsInv(s) && AddsRow(s, after, o) && o.version >= 1
    requires o.id in s.db.trips ==>
               var was := s.db.trips[o.id];
               o.version == was.version + 1 && o.owner == was.owner && o.profile == was.profile
               && o.schedule == was.schedule
    ensures forall key :: key in after.history ==> PastInv(after, key)
  {
    forall key | key in after.history
      ensures PastInv(after, key)
    {
      if key != (o.id, o.version) {
        assert PastInv(s, key);
      }
    }
  }

  lemma DraftKeeps(s: State, offer: Offer)
    requires Inv(s)
    ensures Inv(ApplyDraft(s, offer))
  {
    if offer.id !in s.db.trips && IsDraft(offer) {
      var after := ApplyDraft(s, offer);
      PastBound(s, (offer.id, offer.version));
      forall o | o in s.db.orders
        ensures o.tripId != offer.id
      {
        var k :| 0 <= k < |s.db.orders| && s.db.orders[k] == o;
        assert OrderInv(s, k);
        assert PastInv(s, (o.tripId, o.sourceOfferVersion));
      }
      NoOrdersOn(s.db.orders, offer.id);
      AddedRowKeepsPast(s, after, offer);
      AddedRowKeepsOrders(s, after, offer);
      forall t | t in after.db.trips
        ensures TripInv(after, t)
      {
        if t != offer.id {
          assert TripInv(s, t);
        }
      }
      forall t | t in after.txs
        ensures TxInv(after, after.txs[t])
      {
        GrowsKeepsTx(s, after, s.txs[t]);
      }
    }
  }

  /** Version determines content: a row read earlier with the version of the current row is the current row. */
  lemma SameVersionSameRow(s: State, read: Offer)
    requires TripsInv(s) && Seen(s, read)
    requires read.id in s.db.trips && s.db.trips[read.id].version == read.version
    ensures s.db.trips[read.id] == read
  {
    assert TripInv(s, read.id);
  }

  /** What every edit does: one more version of the same offer, one step further in its life. */
  predicate Edited(current: Offer, o: Offer) {
    && o.id == current.id && o.owner == current.owner && o.profile == current.profile
    && o.schedule == current.schedule && o.remainingCapacity == current.remainingCapacity
    && o.version == current.version + 1
    && match current.status
       case Draft => o.status == PendingModeration
       case PendingModeration => o.status == Published || o.status == Rejected
       case _ => false
  }

  lemma EditShape(current: Offer, edit: Edit)
    ensures EditOffer(current, edit).Some? ==> Edited(current, EditOffer(current, edit).value)
  {
  }

  lemma EditKeepsTrips(s: State, after: State, current: Offer, o: Offer)
    requires TripsInv(s) && current.id in s.db.trips && s.db.trips[current.id] == current
    requires Edited(current, o) && AddsRow(s, after, o)
    requires after.db.orders == s.db.orders
    ensures TripsInv(after)
  {
    AddedRowKeepsPast(s, after, o);
    assert TripInv(s, current.id);
    forall t | t in after.db.trips
      ensures TripInv(after, t)
    {
      if t != current.id {
        assert TripInv(s, t);
      }
    }
  }

  /** The write of this transaction would go through. */
  predicate Saves(s: State, tx: nat) {
    && tx in s.txs && s.txs[tx].Editing?
    && var edited := EditOffer(s.txs[tx].current, s.txs[tx].edit);
       edited.Some? && Save(s.db, edited.value, s.txs[tx].current.version).Some?
  }

  /** A saved edit adds the next row of the trip, made from its current one. */
  lemma EditAdds(s: State, tx: nat)
    requires Inv(s) && Saves(s, tx)
    ensures var t := s.txs[tx];
            var o := EditOffer(t.current, t.edit).value;
            var after := ApplyCommitEdit(s, tx);
            && t.current.id in s.db.trips && s.db.trips[t.current.id] == t.current
            && Edited(t.current, o) && AddsRow(s, after, o)
            && after.db == s.db.(trips := after.db.trips) && after.placed == s.placed
  {
    var t := s.txs[tx];
    assert TxInv(s, t);
    EditShape(t.current, t.edit);
    SameVersionSameRow(s, t.current);
    PastBound(s, (t.current.id, t.current.version + 1));
  }

  lemma SavedEditKeeps(s: State, after: State, current: Offer, o: Offer, tx: nat)
    requires Inv(s) && current.id in s.db.trips && s.db.trips[current.id] == current
    requires Edited(current, o) && AddsRow(s, after, o)
    requires after.db == s.db.(trips := after.db.trips) && after.placed == s.placed
    requires after.txs == s.txs[tx := Closed] && after.clock == s.clock
    ensures Inv(after)
  {
    EditKeepsTrips(s, after, current, o);
    AddedRowKeepsOrders(s, after, o);
    MoveKeepsTxs(s, after, tx, Closed);
  }

  lemma CommitEditKeeps(s: State, tx: nat)
    requires Inv(s)
    ensures Inv(ApplyCommitEdit(s, tx))
  {
    if Saves(s, tx) {
      var t := s.txs[tx];
      EditAdds(s, tx);
      SavedEditKeeps(s, ApplyCommitEdit(s, tx), t.current, EditOffer(t.current, t.edit).value, tx);
    } else if tx in s.txs && s.txs[tx].Editing? {
      SameTables(s, ApplyCommitEdit(s, tx));
      MoveKeepsTxs(s, ApplyCommitEdit(s, tx), tx, Closed);
    }
  }

  // ---------------------------------------------------------------- a new order

  /** `next` is the row of a trip after an order reserved `row.reservedCapacity` on it. */
  function After(cur: Offer, row: Row): Offer {
    cur.(remainingCapacity := cur.remainingCapacity - row.reservedCapacity, version := cur.version + 1)
  }

  /** What a committed submission adds: one order taken from the trip's current row, and its result. */
  ghost predicate AddsOrder(s: State, after: State, cur: Offer, row: Row, p: Placed) {
    && cur.id in s.db.trips && s.db.trips[cur.id] == cur
    && AddsRow(s, after, After(cur, row))
    && Snapshot(row, cur) && cur.status == Published && OpenAt(cur, row.submittedAt)
    && row.customer != cur.owner && row.mode in cur.schedule.serviceModes
    && 1 <= row.reservedCapacity <= cur.remainingCapacity
    && p.request.id == row.id && p.request.submittedAt == row.submittedAt
    && p.request.customer == p.c.customer && p.request.tripId == p.c.tripId && p.request.terms == p.c.terms
    && FindOrder(s.db.orders, row.id).None?
    && after.db.orders == s.db.orders + [row]
    && after.db.results == s.db.results[SlotOf(p.c) := ResultOf(p)]
    && (SlotOf(p.c) in s.db.results ==> s.db.results[SlotOf(p.c)].expiresAt <= row.submittedAt)
    && after.placed == s.placed + [p]
  }

  lemma OrderKeepsTrips(s: State, after: State, cur: Offer, row: Row, p: Placed)
    requires TripsInv(s) && AddsOrder(s, after, cur, row, p)
    ensures TripsInv(after)
  {
    AddedRowKeepsPast(s, after, After(cur, row));
    forall t | t in after.db.trips
      ensures TripInv(after, t)
    {
      assert TripInv(s, t);
      OneMore(s.db.orders, row, t);
    }
  }

  lemma OldOrderKept(s: State, after: State, k: nat)
    requires k < |s.db.orders| && OrderInv(s, k)
    requires k < |after.db.orders| && after.db.orders[k] == s.db.orders[k]
    requires after.db.orders[..k] == s.db.orders[..k]
    requires forall key :: key in s.history ==> key in after.history && after.history[key] == s.history[key]
    ensures OrderInv(after, k)
  {
  }

  lemma NewOrderHolds(s: State, after: State, cur: Offer, row: Row, p: Placed)
    requires TripsInv(s) && AddsOrder(s, after, cur, row, p)
    ensures OrderInv(after, |s.db.orders|)
  {
    assert TripInv(s, cur.id);
    assert after.db.orders[..|s.db.orders|] == s.db.orders;
    assert (cur.id, cur.version) in s.history;
  }

  lemma {:induction false} FoundBefore(orders: seq<Row>, row: Row, id: Text)
    ensures FindOrder(orders, id).Some? ==> FindOrder(orders + [row], id) == FindOrder(orders, id)
    ensures FindOrder(orders, id).None? && row.id == id ==> FindOrder(orders + [row], id) == Some(row)
  {
    if |orders| > 0 {
      assert (orders + [row])[1..] == orders[1..] + [row];
      FoundBefore(orders[1..], row, id);
    } else {
      assert orders + [row] == [row];
    }
  }

  lemma OrderKeepsPlaced(s: State, after: State, cur: Offer, row: Row, p: Placed)
    requires OrdersInv(s) && AddsOrder(s, after, cur, row, p)
    ensures |after.placed| == |after.db.orders|
    ensures forall k :: 0 <= k < |after.db.orders| ==> PlacedInv(after, k)
  {
    forall k | 0 <= k < |after.db.orders|
      ensures PlacedInv(after, k)
    {
      if k < |s.db.orders| {
        assert PlacedInv(s, k);
        FoundBefore(s.db.orders, row, s.placed[k].request.id);
      } else {
        FoundBefore(s.db.orders, row, row.id);
      }
    }
  }

  lemma OrderKeepsSources(s: State, after: State, cur: Offer, row: Row, p: Placed)
    requires TripsInv(s) && (forall k :: 0 <= k < |s.db.orders| ==> OrderInv(s, k))
    requires AddsOrder(s, after, cur, row, p)
    ensures forall k :: 0 <= k < |after.db.orders| ==> OrderInv(after, k)
  {
    NewOrderHolds(s, after, cur, row, p);
    forall k | 0 <= k < |s.db.orders|
      ensures OrderInv(after, k)
    {
      assert OrderInv(s, k);
      assert after.db.orders[..k] == s.db.orders[..k];
      OldOrderKept(s, after, k);
    }
  }

  lemma OrderKeepsKeys(s: State, after: State, cur: Offer, row: Row, p: Placed)
    requires KeysInv(s) && AddsOrder(s, after, cur, row, p)
    ensures KeysInv(after)
  {
    forall slot: Slot
      ensures ResultInv(after, slot)
    {
      assert ResultInv(s, slot);
      LastPlacedNow(s.placed, p, slot);
    }
    assert ResultInv(s, SlotOf(p.c));
    forall i, j | 0 <= i < j < |after.placed| && SlotOf(after.placed[i].c) == SlotOf(after.placed[j].c)
      ensures after.placed[i].request.submittedAt + RETENTION <= after.placed[j].request.submittedAt
    {
      if j == |s.placed| {
        assert s.placed[i] in s.placed;
        var k := LastPlaced(s.placed, SlotOf(p.c)).value;
        assert i <= k;
        assert i < k ==> s.placed[i].request.submittedAt + RETENTION <= s.placed[k].request.submittedAt;
      }
    }
  }

  /** A committed submission read what is still there. */
  lemma FinishedOnCurrent(s: State, t: Tx)
    requires TripsInv(s) && t.Ready? && TxInv(s, t)
    requires Finish(s.db, t.c, t.id, t.prior, t.read, s.clock).Ok?
    ensures t.read.id in s.db.trips && s.db.trips[t.read.id] == t.read
    ensures OpenAt(t.read, s.clock)
    ensures Claim(s.db, t.c, s.clock) == Claimed(t.prior)
  {
    SameVersionSameRow(s, t.read);
  }

  lemma BuiltMatches(c: Command, id: Text, trip: Offer, now: int)
    requires CheckEligible(trip, c, now).None?
    requires Accepted(BuildRequest(c, id, trip, now)).Some?
    ensures var row := Accepted(BuildRequest(c, id, trip, now)).value;
            && Snapshot(row, trip) && row.submittedAt == now && row.id == id
            && row.customer != trip.owner && row.mode in trip.schedule.serviceModes
            && 1 <= row.reservedCapacity == UnitsOf(c)
  {
  }

  /** What a commit that goes through changes, without the reasons. */
  lemma CommitRecords(s: State, tx: nat, heard: bool)
    requires tx in s.txs && s.txs[tx].Ready?
    requires Finish(s.db, s.txs[tx].c, s.txs[tx].id, s.txs[tx].prior, s.txs[tx].read, s.clock).Ok?
    ensures var t := s.txs[tx];
            var p := Placed(t.c, BuildRequest(t.c, t.id, t.read, s.clock), tx);
            var after := ApplyCommit(s, tx, heard);
            && Accepted(p.request).Some? && t.read.id in s.db.trips
            && after.db.trips == s.db.trips[t.read.id := after.db.trips[t.read.id]]
            && after.db.trips[t.read.id]
               == s.db.trips[t.read.id].(remainingCapacity := s.db.trips[t.read.id].remainingCapacity - UnitsOf(t.c),
                                         version := s.db.trips[t.read.id].version + 1)
            && after.db.results == s.db.results[SlotOf(t.c) := ResultOf(p)]
            && after.history == s.history[(after.db.trips[t.read.id].id, after.db.trips[t.read.id].version)
                                          := after.db.trips[t.read.id]]
            && after.placed == s.placed + [p] && after.db.orders == s.db.orders + [Accepted(p.request).value]
            && after.txs == s.txs[tx := Answered(p.c, if heard then Created(p.request) else Refused(ConnectionFailed))]
  {
  }

  lemma FinishFits(db: Database, c: Command, id: Text, prior: Option<StoredResult>, trip: Offer, at: int)
    requires Finish(db, c, id, prior, trip, at).Ok?
    ensures UnitsOf(c) <= trip.remainingCapacity && FindOrder(db.orders, id).None?
  {
  }

  /** A commit that goes through, heard of or not, adds one order, taken from the row its transaction read. */
  lemma CommitAdds(s: State, tx: nat, heard: bool)
    requires Inv(s) && tx in s.txs && s.txs[tx].Ready?
    requires Finish(s.db, s.txs[tx].c, s.txs[tx].id, s.txs[tx].prior, s.txs[tx].read, s.clock).Ok?
    ensures var t := s.txs[tx];
            var p := Placed(t.c, BuildRequest(t.c, t.id, t.read, s.clock), tx);
            Accepted(p.request).Some? && AddsOrder(s, ApplyCommit(s, tx, heard), t.read, Accepted(p.request).value, p)
  {
    var t := s.txs[tx];
    assert TxInv(s, t);
    CommitRecords(s, tx, heard);
    FinishedOnCurrent(s, t);
    FinishFits(s.db, t.c, t.id, t.prior, t.read, s.clock);
    BuiltMatches(t.c, t.id, t.read, s.clock);
    var next := After(t.read, Accepted(BuildRequest(t.c, t.id, t.read, s.clock)).value);
    PastBound(s, (next.id, next.version));
  }

  lemma AddedOrderMoves(s: State, after: State, cur: Offer, row: Row, p: Placed, tx: nat, outcome: Outcome)
    requires TxsInv(s) && AddsOrder(s, after, cur, row, p)
    requires after.txs == s.txs[tx := Answered(p.c, outcome)] && after.clock == s.clock
    ensures TxsInv(after)
  {
    MoveKeepsTxs(s, after, tx, after.txs[tx]);
  }

  lemma AddedOrderKeeps(s: State, after: State, cur: Offer, row: Row, p: Placed, tx: nat, outcome: Outcome)
    requires Inv(s) && AddsOrder(s, after, cur, row, p)
    requires after.txs == s.txs[tx := Answered(p.c, outcome)] && after.clock == s.clock
    ensures Inv(after)
  {
    OrderKeepsTrips(s, after, cur, row, p);
    OrderKeepsPlaced(s, after, cur, row, p);
    OrderKeepsSources(s, after, cur, row, p);
    OrderKeepsKeys(s, after, cur, row, p);
    AddedOrderMoves(s, after, cur, row, p, tx, outcome);
  }

  lemma PlacedKeeps(s: State, tx: nat, heard: bool)
    requires Inv(s) && tx in s.txs && s.txs[tx].Ready?
    requires Finish(s.db, s.txs[tx].c, s.txs[tx].id, s.txs[tx].prior, s.txs[tx].read, s.clock).Ok?
    ensures Inv(ApplyCommit(s, tx, heard))
  {
    var t := s.txs[tx];
    CommitAdds(s, tx, heard);
    CommitRecords(s, tx, heard);
    var p := Placed(t.c, BuildRequest(t.c, t.id, t.read, s.clock), tx);
    AddedOrderKeeps(s, ApplyCommit(s, tx, heard), t.read, Accepted(p.request).value, p, tx,
                    if heard then Created(p.request) else Refused(ConnectionFailed));
  }

  lemma CommitKeeps(s: State, tx: nat, heard: bool)
    requires Inv(s)
    ensures Inv(ApplyCommit(s, tx, heard))
  {
    if tx in s.txs && s.txs[tx].Ready? {
      var t := s.txs[tx];
      var after := ApplyCommit(s, tx, heard);
      if Finish(s.db, t.c, t.id, t.prior, t.read, s.clock).Ok? {
        PlacedKeeps(s, tx, heard);
      } else {
        ChangeKeeps(s, after, tx, after.txs[tx]);
      }
    } else if tx in s.txs && s.txs[tx].Leaving? {
      ChangeKeeps(s, ApplyCommit(s, tx, heard), tx, ApplyCommit(s, tx, heard).txs[tx]);
    }
  }

  // ---------------------------------------------------------------- all steps

  lemma QuietKeeps(s: State, after: State)
    requires Inv(s) && after.txs == s.txs && s.clock <= after.clock
    requires after.db == s.db.(sellers := after.db.sellers)
    requires after.history == s.history && after.placed == s.placed
    ensures Inv(after)
  {
    SameTables(s, after);
    forall t | t in after.txs
      ensures TxInv(after, after.txs[t])
    {
      GrowsKeepsTx(s, after, s.txs[t]);
    }
  }

  lemma InvStep(s: State, a: Action)
    requires Inv(s)
    ensures Inv(Apply(s, a))
  {
    if a.Tick? || a.SetSellers? {
      QuietKeeps(s, Apply(s, a));
    } else if a.CreateDraft? {
      DraftKeeps(s, a.offer);
    } else if a.BeginEdit? {
      BeginEditKeeps(s, a.tx, a.tripId, a.edit);
    } else if a.CommitEdit? {
      CommitEditKeeps(s, a.tx);
    } else {
      CallStepKeeps(s, a);
    }
  }

  lemma CallStepKeeps(s: State, a: Action)
    requires Inv(s)
    requires a.Begin? || a.Retry? || a.Lock? || a.Commit? || a.Conflict? || a.Fail? || a.Abandon?
    ensures Inv(Apply(s, a))
  {
    if a.Begin? {
      BeginKeeps(s, a.tx, a.c, a.id);
    } else if a.Retry? {
      RetryKeeps(s, a.tx, a.id);
    } else if a.Lock? {
      LockKeeps(s, a.tx);
    } else if a.Commit? {
      CommitKeeps(s, a.tx, a.heard);
    } else {
      InterruptionKeeps(s, a.tx);
    }
  }

  lemma InitInv(clock: int)
    ensures Inv(Init(clock))
  {
  }

  lemma {:induction false} InvRun(s: State, actions: seq<Action>)
    requires Inv(s)
    ensures Inv(Run(s, actions))
    decreases |actions|
  {
    if |actions| > 0 {
      InvStep(s, actions[0]);
      InvRun(Apply(s, actions[0]), actions[1..]);
    }
  }
}
