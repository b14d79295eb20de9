/** What the interleaved marketplace guarantees after any run from empty tables. */
module OrderTheorems {
  import opened Wrappers
  import opened Text
  import opened Trips
  import opened OrderTerms
  import opened OrderSubmission
  import opened OrderRuns
  import opened OrderInvariants

  // ---------------------------------------------------------------- refinement

  /** The same operations done alone, at one instant each, on the tables as they are. */
  datatype Operation =
    | SubmitAlone(c: Command, id: Text, at: int)
    | EditAlone(tripId: Text, edit: Edit)
    | DraftAlone(offer: Offer)
    | SellersAlone(sellers: set<(nat, nat)>)

  function Perform(db: Database, op: Operation): Database {
    match op
    case SubmitAlone(c, id, at) => Submit(db, c, id, at, at).0
    case EditAlone(tripId, edit) =>
      if tripId !in db.trips || EditOffer(db.trips[tripId], edit).None? then db
      else db.(trips := db.trips[tripId := EditOffer(db.trips[tripId], edit).value])
    case DraftAlone(offer) =>
      if offer.id in db.trips || !IsDraft(offer) then db else db.(trips := db.trips[offer.id := offer])
    case SellersAlone(sellers) => db.(sellers := sellers)
  }

  function PerformAll(db: Database, ops: seq<Operation>): Database
    decreases |ops|
  {
    if |ops| == 0 then db else PerformAll(Perform(db, ops[0]), ops[1..])
  }

  function CommitOperations(s: State, tx: nat): seq<Operation> {
    if tx !in s.txs || !s.txs[tx].Ready? then []
    else
      var t := s.txs[tx];
      if Finish(s.db, t.c, t.id, t.prior, t.read, s.clock).Err? then [] else [SubmitAlone(t.c, t.id, s.clock)]
  }

  function EditOperations(s: State, tx: nat): seq<Operation> {
    if Saves(s, tx) then [EditAlone(s.txs[tx].current.id, s.txs[tx].edit)] else []
  }

  /** The operation a step amounts to, if any: only commits that go through amount to one. */
  function Operations(s: State, a: Action): seq<Operation> {
    match a
    case CreateDraft(offer) => [DraftAlone(offer)]
    case SetSellers(sellers) => [SellersAlone(sellers)]
    case Commit(tx, _) => CommitOperations(s, tx)
    case CommitEdit(tx) => EditOperations(s, tx)
    case _ => []
  }

  function RunOperations(s: State, actions: seq<Action>): seq<Operation>
    decreases |actions|
  {
    if |actions| == 0 then [] else Operations(s, actions[0]) + RunOperations(Apply(s, actions[0]), actions[1..])
  }

  /**
   A submission that commits after any number of other transactions overtook its reads has
   the effect and the answer of the whole use case run alone at the instant of its commit.
   */
  lemma CommitIsAtomic(s: State, tx: nat, heard: bool)
    requires Inv(s) && tx in s.txs && s.txs[tx].Ready?
    requires Finish(s.db, s.txs[tx].c, s.txs[tx].id, s.txs[tx].prior, s.txs[tx].read, s.clock).Ok?
    ensures var t := s.txs[tx];
            var (db, outcome) := Submit(s.db, t.c, t.id, s.clock, s.clock);
            && ApplyCommit(s, tx, heard).db == db
            && ApplyCommit(s, tx, heard).txs[tx] == Answered(t.c, if heard then outcome else Refused(ConnectionFailed))
            && outcome == Created(BuildRequest(t.c, t.id, t.read, s.clock))
  {
    var t := s.txs[tx];
    assert TxInv(s, t);
    FinishedOnCurrent(s, t);
    assert CheckEligible(t.read, t.c, s.clock).None?;
  }

  /** An edit that is saved was made to the current row, however stale its read was. */
  lemma EditIsAtomic(s: State, tx: nat)
    requires Inv(s) && Saves(s, tx)
    ensures ApplyCommitEdit(s, tx).db == Perform(s.db, EditOperations(s, tx)[0])
  {
    EditAdds(s, tx);
  }

  /** Every step either leaves the tables alone or is one whole operation on them. */
  lemma StepRefines(s: State, a: Action)
    requires Inv(s)
    ensures |Operations(s, a)| <= 1
    ensures Apply(s, a).db == if |Operations(s, a)| == 1 then Perform(s.db, Operations(s, a)[0]) else s.db
  {
    if a.Commit? {
      if |CommitOperations(s, a.tx)| == 1 {
        CommitIsAtomic(s, a.tx, a.heard);
      }
    } else if a.CommitEdit? && Saves(s, a.tx) {
      EditIsAtomic(s, a.tx);
    }
  }

  /** The tables after any run are those after its operations one after another, with nothing in between. */
  lemma {:induction false} RunRefines(s: State, actions: seq<Action>)
    requires Inv(s)
    ensures Run(s, actions).db == PerformAll(s.db, RunOperations(s, actions))
    decreases |actions|
  {
    if |actions| > 0 {
      InvStep(s, actions[0]);
      StepRefines(s, actions[0]);
      RunRefines(Apply(s, actions[0]), actions[1..]);
      var ops, rest := Operations(s, actions[0]), RunOperations(Apply(s, actions[0]), actions[1..]);
      if |ops| == 1 {
        assert (ops + rest)[0] == ops[0] && (ops + rest)[1..] == rest;
      } else {
        assert ops + rest == rest;
      }
    }
  }

  // ---------------------------------------------------------------- capacity

  /** Nothing is oversold: what is left and what was reserved always make up the capacity of the draft. */
  lemma CapacityIsConserved(clock: int, actions: seq<Action>, tripId: Text)
    requires tripId in Run(Init(clock), actions).db.trips
    ensures var s := Run(Init(clock), actions);
            && Conserved(s, tripId)
            && 0 <= ReservedOn(s.db.orders, tripId) <= s.history[(tripId, 1)].remainingCapacity
  {
    InitInv(clock);
    InvRun(Init(clock), actions);
    var s := Run(Init(clock), actions);
    assert TripInv(s, tripId);
    ReservedIsPositive(s, |s.db.orders|, tripId);
    assert s.db.orders[..|s.db.orders|] == s.db.orders;
  }

  lemma {:induction false} ReservedIsPositive(s: State, n: nat, tripId: Text)
    requires OrdersInv(s) && n <= |s.db.orders|
    ensures ReservedOn(s.db.orders[..n], tripId) >= 0
  {
    if n > 0 {
      ReservedIsPositive(s, n - 1, tripId);
      assert OrderInv(s, n - 1);
      assert s.db.orders[..n][..n - 1] == s.db.orders[..n - 1];
    }
  }

  // ---------------------------------------------------------------- versions

  /** Rows and orders are only ever added. */
  ghost predicate Extends(s: State, after: State) {
    && (forall key :: key in s.history ==> key in after.history && after.history[key] == s.history[key])
    && s.placed <= after.placed && s.db.orders <= after.db.orders
  }

  lemma RowExtends(s: State, after: State, o: Offer)
    requires AddsRow(s, after, o) && s.placed <= after.placed && s.db.orders <= after.db.orders
    ensures Extends(s, after)
  {
  }

  lemma SameExtends(s: State, after: State)
    requires after.history == s.history && after.placed == s.placed && after.db.orders == s.db.orders
    ensures Extends(s, after)
  {
  }

  lemma OrderExtends(s: State, after: State, cur: Offer, row: Row, p: Placed)
    requires AddsOrder(s, after, cur, row, p)
    ensures Extends(s, after)
  {
    RowExtends(s, after, After(cur, row));
  }

  lemma NoOrderExtends(s: State, tx: nat, heard: bool)
    requires |CommitOperations(s, tx)| == 0
    ensures Extends(s, ApplyCommit(s, tx, heard))
  {
    SameExtends(s, ApplyCommit(s, tx, heard));
  }

  lemma CommitExtends(s: State, tx: nat, heard: bool)
    requires Inv(s)
    ensures Extends(s, ApplyCommit(s, tx, heard))
  {
    if |CommitOperations(s, tx)| == 0 {
      NoOrderExtends(s, tx, heard);
    } else {
      CommitAdds(s, tx, heard);
      var t := s.txs[tx];
      var p := Placed(t.c, BuildRequest(t.c, t.id, t.read, s.clock), tx);
      OrderExtends(s, ApplyCommit(s, tx, heard), t.read, Accepted(p.request).value, p);
    }
  }

  lemma EditExtends(s: State, tx: nat)
    requires Inv(s)
    ensures Extends(s, ApplyCommitEdit(s, tx))
  {
    if Saves(s, tx) {
      EditAdds(s, tx);
      RowExtends(s, ApplyCommitEdit(s, tx), EditOffer(s.txs[tx].current, s.txs[tx].edit).value);
    } else {
      SameExtends(s, ApplyCommitEdit(s, tx));
    }
  }

  lemma DraftExtends(s: State, a: Action)
    requires Inv(s) && a.CreateDraft?
    ensures Extends(s, Apply(s, a))
  {
    PastBound(s, (a.offer.id, a.offer.version));
  }

  lemma QuietExtends(s: State, a: Action)
    requires !a.CreateDraft? && !a.Commit? && !a.CommitEdit?
    ensures Extends(s, Apply(s, a))
  {
  }

  /** The steps that write, by name. */
  lemma WritingStep(s: State, a: Action)
    ensures a.Commit? ==> Apply(s, a) == ApplyCommit(s, a.tx, a.heard)
    ensures a.CommitEdit? ==> Apply(s, a) == ApplyCommitEdit(s, a.tx)
  {
  }

  lemma StepExtends(s: State, a: Action)
    requires Inv(s)
    ensures Extends(s, Apply(s, a))
  {
    WritingStep(s, a);
    if a.CreateDraft? {
      DraftExtends(s, a);
    } else if a.Commit? {
      CommitExtends(s, a.tx, a.heard);
    } else if a.CommitEdit? {
      EditExtends(s, a.tx);
    } else {
      QuietExtends(s, a);
    }
  }

  lemma ExtendsTransitive(a: State, b: State, c: State)
    requires Extends(a, b) && Extends(b, c)
    ensures Extends(a, c)
  {
  }

  lemma {:induction false} RunExtends(s: State, actions: seq<Action>)
    requires Inv(s)
    ensures Extends(s, Run(s, actions))
    decreases |actions|
  {
    if |actions| > 0 {
      var next := Apply(s, actions[0]);
      StepExtends(s, actions[0]);
      InvStep(s, actions[0]);
      RunExtends(next, actions[1..]);
      ExtendsTransitive(s, next, Run(next, actions[1..]));
    }
  }

  /** Two observations of a trip with one version saw the same row, however far apart they were. */
  lemma VersionDeterminesContent(clock: int, actions: seq<Action>, more: seq<Action>, tripId: Text)
    requires var s := Run(Init(clock), actions);
             && tripId in s.db.trips && tripId in Run(s, more).db.trips
             && s.db.trips[tripId].version == Run(s, more).db.trips[tripId].version
    ensures var s := Run(Init(clock), actions);
            s.db.trips[tripId] == Run(s, more).db.trips[tripId]
  {
    InitInv(clock);
    InvRun(Init(clock), actions);
    var s := Run(Init(clock), actions);
    InvRun(s, more);
    RunExtends(s, more);
    assert TripInv(s, tripId) && TripInv(Run(s, more), tripId);
  }

  /** Order number `j` of a trip, counting from 0, is somewhere in the table. */
  lemma {:induction false} OrderNumbered(orders: seq<Row>, tripId: Text, j: nat) returns (k: nat)
    requires j < OrdersOn(orders, tripId)
    ensures k < |orders| && orders[k].tripId == tripId && OrdersOn(orders[..k], tripId) == j
  {
    var last := |orders| - 1;
    if orders[last].tripId == tripId && OrdersOn(orders[..last], tripId) == j {
      k := last;
    } else {
      k := OrderNumbered(orders[..last], tripId, j);
      assert orders[..last][..k] == orders[..k];
    }
  }

  /**
   A published trip with `n` orders has version 3 + n, and its orders were taken from its
   versions 3 to n + 2, one from each.
   */
  lemma VersionsCountOrders(clock: int, actions: seq<Action>, tripId: Text, v: int)
    requires tripId in Run(Init(clock), actions).db.trips
    requires Run(Init(clock), actions).db.trips[tripId].status == Published
    ensures var s := Run(Init(clock), actions);
            var n := OrdersOn(s.db.orders, tripId);
            && s.db.trips[tripId].version == 3 + n
            && ((exists o <- s.db.orders :: o.tripId == tripId && o.sourceOfferVersion == v) <==> 3 <= v < 3 + n)
  {
    InitInv(clock);
    InvRun(Init(clock), actions);
    var s := Run(Init(clock), actions);
    assert TripInv(s, tripId);
    if 3 <= v < 3 + OrdersOn(s.db.orders, tripId) {
      var k := OrderNumbered(s.db.orders, tripId, v - 3);
      assert OrderInv(s, k);
      assert s.db.orders[k] in s.db.orders;
    }
    if o :| o in s.db.orders && o.tripId == tripId && o.sourceOfferVersion == v {
      var k :| 0 <= k < |s.db.orders| && s.db.orders[k] == o;
      assert OrderInv(s, k);
      CountsBelow(s.db.orders, k, tripId);
    }
  }

  lemma {:induction false} CountsBelow(orders: seq<Row>, k: nat, tripId: Text)
    requires k < |orders| && orders[k].tripId == tripId
    ensures OrdersOn(orders[..k], tripId) < OrdersOn(orders, tripId)
  {
    var last := |orders| - 1;
    if k < last {
      CountsBelow(orders[..last], k, tripId);
      assert orders[..last][..k] == orders[..k];
    }
  }

  /**
   Every order ever committed keeps, through any later run, the columns of its trip's row at
   the version it names: a published row, open at the time of the order, offering its mode,
   owned by somebody else, with room for it, and followed by that row less the reservation.
   */
  lemma OrdersMatchTheirTrips(clock: int, actions: seq<Action>, more: seq<Action>, k: nat)
    requires k < |Run(Init(clock), actions).db.orders|
    ensures var s := Run(Init(clock), actions);
            && OrderInv(s, k)
            && k < |Run(s, more).db.orders| && Run(s, more).db.orders[k] == s.db.orders[k]
            && OrderInv(Run(s, more), k)
  {
    InitInv(clock);
    InvRun(Init(clock), actions);
    var s := Run(Init(clock), actions);
    InvRun(s, more);
    RunExtends(s, more);
  }

  // ---------------------------------------------------------------- keys

  /**
   Each customer and key has at most one stored result: that of the latest order placed under
   it, which exists, is that customer's, and is the one found by the stored identifier. Two
   orders under one customer and key are at least seven days apart.
   */
  lemma KeysAreDurable(clock: int, actions: seq<Action>, slot: Slot)
    ensures var s := Run(Init(clock), actions);
            && (slot in s.db.results <==> exists p <- s.placed :: SlotOf(p.c) == slot)
            && (slot in s.db.results ==>
                  exists k :: 0 <= k < |s.placed| && k < |s.db.orders| && LastPlaced(s.placed, slot) == Some(k)
                    && s.db.results[slot] == ResultOf(s.placed[k])
                    && FindOrder(s.db.orders, s.db.results[slot].requestId) == Some(s.db.orders[k])
                    && s.placed[k].request.customer == slot.customer)
            && Spaced(s.placed)
  {
    InitInv(clock);
    InvRun(Init(clock), actions);
    var s := Run(Init(clock), actions);
    assert ResultInv(s, slot);
    var last := LastPlaced(s.placed, slot);
    if last.Some? {
      assert PlacedInv(s, last.value);
      assert s.placed[last.value] in s.placed;
    }
  }

  /** At most one transaction holds a key at a time. */
  lemma KeysAreExclusive(clock: int, actions: seq<Action>)
    ensures Exclusive(Run(Init(clock), actions).txs)
  {
    InitInv(clock);
    InvRun(Init(clock), actions);
  }
}
