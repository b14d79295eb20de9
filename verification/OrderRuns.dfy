/**
 Any number of calls interleaving over the marketplace tables. An attempt at a submission reads
 in one step (the key's record, the trip and the clock), takes its key's lock in a second, and
 in a third writes everything, under the guards of its statements, or leaves with the answer its
 reads gave; it keeps the lock until then. Trip edits read in one step and write the whole row
 in another, under the version guard. Anything may happen in between,
 so what an attempt has read may be stale when it writes. A unique-key conflict of its own
 writes, or a write conflict reported at any time, makes a call try again with fresh reads and
 a fresh identifier, at most three times in all; any other failure ends it. The clock is the
 database's and never goes back. `history` and `placed` are not part of the program: they
 record every row a trip has had, and every order with the command and the call that created it.
 */
module OrderRuns {
  import opened Wrappers
  import opened Text
  import opened Trips
  import opened OrderTerms
  import opened OrderSubmission

  datatype Edit = SendToModeration(actor: nat) | Approve(publishedAt: int) | Reject(reason: Text)

  /**
   A call: in its `attempt`-th attempt, before the lock, about to write or about to leave with an
   answer; waiting for the next attempt; editing a trip; or over.
   */
  datatype Tx =
    | Begun(c: Command, attempt: nat, id: Text, observedAt: int, reply: ClaimReply, trip: Option<Offer>)
    | Ready(c: Command, attempt: nat, id: Text, observedAt: int, prior: Option<StoredResult>, read: Offer)
    | Leaving(c: Command, attempt: nat, id: Text, observedAt: int, reply: ClaimReply, trip: Option<Offer>,
              outcome: Outcome)
    | Waiting(c: Command, attempt: nat)
    | Editing(edit: Edit, current: Offer)
    | Answered(c: Command, outcome: Outcome)
    | Closed

  /** An order, the command that asked for it, and the call that created it. */
  datatype Placed = Placed(c: Command, request: Request, call: nat)

  datatype State = State(
    db: Database, clock: int, txs: map<nat, Tx>,
    history: map<(Text, int), Offer>, placed: seq<Placed>)

  datatype Action =
    | Tick(elapsed: nat)
    | CreateDraft(offer: Offer)
    | SetSellers(sellers: set<(nat, nat)>)
    | Begin(tx: nat, c: Command, id: Text)
    | Retry(tx: nat, id: Text)
    | Lock(tx: nat)
    | Commit(tx: nat, heard: bool)
    | Conflict(tx: nat)
    | Fail(tx: nat)
    | BeginEdit(tx: nat, tripId: Text, edit: Edit)
    | CommitEdit(tx: nat)
    | Abandon(tx: nat)

  function Init(clock: int): State {
    State(Database(map[], [], map[], {}), clock, map[], map[], [])
  }

  /** What `createTripOffer` hands to the insert of a new trip. */
  predicate IsDraft(offer: Offer) {
    offer.status == Draft && offer.version == 1 && offer.remainingCapacity >= 0
  }

  lemma AcceptedOffersAreDrafts(
      locale: Locale, id: Text, owner: nat, profile: nat, schedule: Schedule<IsoText>, capacity: int, terms: PublicTerms)
    requires CreateOffer(locale, id, owner, profile, schedule, capacity, terms).Ok?
    ensures IsDraft(CreateOffer(locale, id, owner, profile, schedule, capacity, terms).value)
  {
  }

  /** The edited row; nothing if the edit is refused. */
  function EditOffer(offer: Offer, edit: Edit): Option<Offer> {
    var r := match edit
             case SendToModeration(actor) =>
               if actor != offer.owner then Err(WrongState(offer.status)) else SubmitOffer(offer)
             case Approve(publishedAt) => ApproveOffer(offer, publishedAt)
             case Reject(reason) => RejectOffer(offer, reason);
    if r.Ok? then Some(r.value) else None
  }

  /** The transaction has its key's lock, which it keeps to its end, whatever it is going to answer. */
  predicate HoldsKey(t: Tx) {
    t.Ready? || t.Leaving?
  }

  /** Some transaction holds the key. */
  predicate Locked(txs: map<nat, Tx>, slot: Slot) {
    exists t <- txs :: HoldsKey(txs[t]) && SlotOf(txs[t].c) == slot
  }

  function Lookup(db: Database, tripId: Text): Option<Offer> {
    if tripId in db.trips then Some(db.trips[tripId]) else None
  }

  /** The reads of attempt number `attempt`. */
  function Reads(s: State, c: Command, attempt: nat, id: Text): Tx {
    Begun(c, attempt, id, s.clock, Claim(s.db, c, s.clock), Lookup(s.db, c.tripId))
  }

  function ApplyBegin(s: State, tx: nat, c: Command, id: Text): State {
    if tx in s.txs then s else s.(txs := s.txs[tx := Reads(s, c, 1, id)])
  }

  function ApplyRetry(s: State, tx: nat, id: Text): State {
    if tx !in s.txs || !s.txs[tx].Waiting? then s
    else s.(txs := s.txs[tx := Reads(s, s.txs[tx].c, s.txs[tx].attempt + 1, id)])
  }

  /** After a retryable conflict: another attempt, unless this was the third. */
  function AfterConflict(c: Command, attempt: nat): Tx {
    if attempt < 3 then Waiting(c, attempt) else Answered(c, Refused(RetriesExhausted))
  }

  predicate Attempting(t: Tx) {
    t.Begun? || HoldsKey(t)
  }

  /** What the claim and the eligibility check answer, if they do not let the submission go on. */
  function Verdict(c: Command, observedAt: int, reply: ClaimReply, trip: Option<Offer>): Option<Outcome> {
    match reply
    case Mismatch => Some(Refused(KeyConflict))
    case Replay(request) => Some(if request.Some? then Replayed(request.value) else Refused(StorageRefused))
    case Claimed(_) =>
      if trip.None? then Some(Refused(TripMissing))
      else
        var refusal := CheckEligible(trip.value, c, observedAt);
        if refusal.Some? then Some(Refused(refusal.value)) else None
  }

  /** From the lock to the eligibility check. Without the lock the call is over at once. */
  function AfterLock(txs: map<nat, Tx>, t: Tx): Tx
    requires t.Begun?
  {
    if Locked(txs, SlotOf(t.c)) then Answered(t.c, Refused(KeyInProgress))
    else
      var verdict := Verdict(t.c, t.observedAt, t.reply, t.trip);
      if verdict.Some? then Leaving(t.c, t.attempt, t.id, t.observedAt, t.reply, t.trip, verdict.value)
      else Ready(t.c, t.attempt, t.id, t.observedAt, t.reply.prior, t.trip.value)
  }

  function ApplyLock(s: State, tx: nat): State {
    if tx in s.txs && s.txs[tx].Begun? then s.(txs := s.txs[tx := AfterLock(s.txs, s.txs[tx])]) else s
  }

  /** The state after an order was written: `row` is the trip's new row; the answer may be lost on its way. */
  function Recorded(s: State, tx: nat, db: Database, row: Offer, p: Placed, heard: bool): State {
    s.(db := db,
       txs := s.txs[tx := Answered(p.c, if heard then Created(p.request) else Refused(ConnectionFailed))],
       history := s.history[(row.id, row.version) := row], placed := s.placed + [p])
  }

  function ApplyCommit(s: State, tx: nat, heard: bool): State {
    if tx !in s.txs || !HoldsKey(s.txs[tx]) then s
    else if s.txs[tx].Leaving? then
      s.(txs := s.txs[tx := Answered(s.txs[tx].c, if heard then s.txs[tx].outcome else Refused(ConnectionFailed))])
    else
      var t := s.txs[tx];
      var done := Finish(s.db, t.c, t.id, t.prior, t.read, s.clock);
      if done.Ok? then
        Recorded(s, tx, done.value, done.value.trips[t.read.id],
                 Placed(t.c, BuildRequest(t.c, t.id, t.read, s.clock), tx), heard)
      else if Retryable(done.error) then s.(txs := s.txs[tx := AfterConflict(t.c, t.attempt)])
      else s.(txs := s.txs[tx := Answered(t.c, Refused(done.error))])
  }

  /** A write conflict, or another failure, ends an attempt before it has written anything. */
  function ApplyConflict(s: State, tx: nat): State {
    if tx in s.txs && Attempting(s.txs[tx])
    then s.(txs := s.txs[tx := AfterConflict(s.txs[tx].c, s.txs[tx].attempt)]) else s
  }

  function ApplyFail(s: State, tx: nat): State {
    if tx in s.txs && Attempting(s.txs[tx])
    then s.(txs := s.txs[tx := Answered(s.txs[tx].c, Refused(ConnectionFailed))]) else s
  }

  function ApplyCommitEdit(s: State, tx: nat): State {
    if tx !in s.txs || !s.txs[tx].Editing? then s
    else
      var t := s.txs[tx];
      var edited := EditOffer(t.current, t.edit);
      var saved := if edited.None? then None else Save(s.db, edited.value, t.current.version);
      if saved.None? then s.(txs := s.txs[tx := Closed])
      else
        s.(db := saved.value, txs := s.txs[tx := Closed],
           history := s.history[(edited.value.id, edited.value.version) := edited.value])
  }

  function ApplyBeginEdit(s: State, tx: nat, tripId: Text, edit: Edit): State {
    if tx in s.txs || tripId !in s.db.trips then s
    else s.(txs := s.txs[tx := Editing(edit, s.db.trips[tripId])])
  }

  function ApplyAbandon(s: State, tx: nat): State {
    if tx in s.txs && !s.txs[tx].Answered? then s.(txs := s.txs[tx := Closed]) else s
  }

  function ApplyDraft(s: State, offer: Offer): State {
    if offer.id in s.db.trips || !IsDraft(offer) then s
    else
      s.(db := s.db.(trips := s.db.trips[offer.id := offer]),
         history := s.history[(offer.id, offer.version) := offer])
  }

  function Apply(s: State, a: Action): State {
    match a
    case Tick(elapsed) => s.(clock := s.clock + elapsed)
    case CreateDraft(offer) => ApplyDraft(s, offer)
    case SetSellers(sellers) => s.(db := s.db.(sellers := sellers))
    case Begin(tx, c, id) => ApplyBegin(s, tx, c, id)
    case Retry(tx, id) => ApplyRetry(s, tx, id)
    case Lock(tx) => ApplyLock(s, tx)
    case Commit(tx, heard) => ApplyCommit(s, tx, heard)
    case Conflict(tx) => ApplyConflict(s, tx)
    case Fail(tx) => ApplyFail(s, tx)
    case BeginEdit(tx, tripId, edit) => ApplyBeginEdit(s, tx, tripId, edit)
    case CommitEdit(tx) => ApplyCommitEdit(s, tx)
    case Abandon(tx) => ApplyAbandon(s, tx)
  }

  function Run(s: State, actions: seq<Action>): State
    decreases |actions|
  {
    if |actions| == 0 then s else Run(Apply(s, actions[0]), actions[1..])
  }

  // ---------------------------------------------------------------- sums over orders

  /** Hundredths of a kilogram reserved on a trip. */
  function ReservedOn(orders: seq<Row>, tripId: Text): int {
    if |orders| == 0 then 0
    else
      var last := orders[|orders| - 1];
      ReservedOn(orders[..|orders| - 1], tripId) + (if last.tripId == tripId then last.reservedCapacity else 0)
  }

  function OrdersOn(orders: seq<Row>, tripId: Text): nat {
    if |orders| == 0 then 0
    else OrdersOn(orders[..|orders| - 1], tripId) + (if orders[|orders| - 1].tripId == tripId then 1 else 0)
  }

  lemma OneMore(orders: seq<Row>, row: Row, tripId: Text)
    ensures ReservedOn(orders + [row], tripId)
         == ReservedOn(orders, tripId) + if row.tripId == tripId then row.reservedCapacity else 0
    ensures OrdersOn(orders + [row], tripId) == OrdersOn(orders, tripId) + if row.tripId == tripId then 1 else 0
  {
    assert (orders + [row])[..|orders|] == orders;
  }

  /** The latest order placed under a key. */
  function LastPlaced(placed: seq<Placed>, slot: Slot): (r: Option<nat>)
    ensures r.Some? ==> r.value < |placed| && SlotOf(placed[r.value].c) == slot
    ensures r.Some? ==> forall i :: r.value < i < |placed| ==> SlotOf(placed[i].c) != slot
    ensures r.None? ==> forall p <- placed :: SlotOf(p.c) != slot
  {
    if |placed| == 0 then None
    else if SlotOf(placed[|placed| - 1].c) == slot then Some(|placed| - 1)
    else LastPlaced(placed[..|placed| - 1], slot)
  }

  lemma LastPlacedNow(placed: seq<Placed>, p: Placed, slot: Slot)
    ensures LastPlaced(placed + [p], slot)
         == if SlotOf(p.c) == slot then Some(|placed|) else LastPlaced(placed, slot)
  {
    assert (placed + [p])[..|placed|] == placed;
  }

  // ---------------------------------------------------------------- invariant

  /** A row is one its trip has had. */
  predicate Seen(s: State, o: Offer) {
    (o.id, o.version) in s.history && s.history[(o.id, o.version)] == o
  }

  /** Status and version go together, and a published trip gains one version per order. */
  predicate Phase(o: Offer, orders: nat) {
    match o.status
    case Draft => o.version == 1 && orders == 0
    case PendingModeration => o.version == 2 && orders == 0
    case Rejected => o.version == 3 && orders == 0
    case Published => o.version == 3 + orders
    case Archived => false
  }

  /** Conservation: what is left and what its orders reserved make up the drafted capacity. */
  predicate Conserved(s: State, tripId: Text)
    requires tripId in s.db.trips
  {
    && (tripId, 1) in s.history && s.history[(tripId, 1)].status == Draft
    && s.db.trips[tripId].remainingCapacity >= 0
    && s.db.trips[tripId].remainingCapacity + ReservedOn(s.db.orders, tripId)
       == s.history[(tripId, 1)].remainingCapacity
  }

  ghost predicate TripInv(s: State, tripId: Text)
    requires tripId in s.db.trips
  {
    var o := s.db.trips[tripId];
    && o.id == tripId && Seen(s, o)
    && Conserved(s, tripId)
    && Phase(o, OrdersOn(s.db.orders, tripId))
  }

  /** Rows of the past belong to trips that still exist, and have earlier versions of the same schedule. */
  predicate PastInv(s: State, key: (Text, int))
    requires key in s.history
  {
    && key.0 in s.db.trips
    && var (h, o) := (s.history[key], s.db.trips[key.0]);
       && h.id == key.0 && h.version == key.1 && 1 <= key.1 <= o.version
       && h.owner == o.owner && h.profile == o.profile && h.schedule == o.schedule
  }

  /** An order's columns are those of the row it was taken from. */
  predicate Snapshot(row: Row, o: Offer) {
    && row.tripId == o.id && row.seller == o.owner && row.profile == o.profile
    && row.sourceOfferVersion == o.version
    && row.originLabel == o.schedule.originLabel && row.destinationLabel == o.schedule.destinationLabel
    && row.orderOpenAt == o.schedule.requestOpenAt && row.orderCloseAt == o.schedule.requestDeadline
    && row.departureAt == o.schedule.departureAt && row.estimatedArrivalAt == o.schedule.estimatedArrivalAt
  }

  /**
   Order `k` was taken from its trip's row at its source version: published, open, offering
   its mode, owned by somebody else, with room for it; the trip's next row is that row less
   the reservation.
   */
  predicate OrderInv(s: State, k: nat)
    requires k < |s.db.orders|
  {
    var row := s.db.orders[k];
    var v := row.sourceOfferVersion;
    && v == 3 + OrdersOn(s.db.orders[..k], row.tripId)
    && (row.tripId, v) in s.history && (row.tripId, v + 1) in s.history
    && var o := s.history[(row.tripId, v)];
       && Snapshot(row, o)
       && o.status == Published && OpenAt(o, row.submittedAt)
       && row.customer != o.owner && row.mode in o.schedule.serviceModes
       && 1 <= row.reservedCapacity <= o.remainingCapacity
       && s.history[(row.tripId, v + 1)]
          == o.(remainingCapacity := o.remainingCapacity - row.reservedCapacity, version := o.version + 1)
  }

  /** Order `k` is the one found under its identifier, and is what its command asked for. */
  ghost predicate PlacedInv(s: State, k: nat)
    requires k < |s.db.orders| && k < |s.placed|
  {
    var p := s.placed[k];
    && p.request.id == s.db.orders[k].id && p.request.submittedAt == s.db.orders[k].submittedAt
    && p.request.customer == p.c.customer && p.request.tripId == p.c.tripId && p.request.terms == p.c.terms
    && FindOrder(s.db.orders, p.request.id) == Some(s.db.orders[k])
  }

  function ResultOf(p: Placed): StoredResult {
    StoredResult(p.c.fingerprint, p.request.id, p.request.submittedAt, p.request.submittedAt + RETENTION)
  }

  /** The stored result of a key is that of the latest order placed under it. */
  predicate ResultInv(s: State, slot: Slot) {
    var last := LastPlaced(s.placed, slot);
    && (slot in s.db.results <==> last.Some?)
    && (last.Some? ==> s.db.results[slot] == ResultOf(s.placed[last.value]))
  }

  /** Orders under one key are at least the retention apart. */
  predicate Spaced(placed: seq<Placed>) {
    forall i, j :: 0 <= i < j < |placed| && SlotOf(placed[i].c) == SlotOf(placed[j].c) ==>
      placed[i].request.submittedAt + RETENTION <= placed[j].request.submittedAt
  }

  predicate ExpiredBy(prior: Option<StoredResult>, at: int) {
    prior.Some? ==> prior.value.expiresAt <= at
  }

  /** What a transaction has read was true when it read it. */
  predicate TxInv(s: State, t: Tx) {
    match t
    case Begun(c, _, _, observedAt, reply, trip) =>
      && observedAt <= s.clock
      && (reply.Claimed? ==> ExpiredBy(reply.prior, observedAt))
      && (trip.Some? ==> trip.value.id == c.tripId && Seen(s, trip.value))
    case Ready(c, _, _, observedAt, prior, read) =>
      && observedAt <= s.clock && ExpiredBy(prior, observedAt)
      && read.id == c.tripId && Seen(s, read) && CheckEligible(read, c, observedAt).None?
    case Leaving(c, _, _, observedAt, reply, trip, outcome) => Verdict(c, observedAt, reply, trip) == Some(outcome)
    case Editing(_, current) => Seen(s, current)
    case _ => true
  }

  predicate HoldOneKey(t: Tx, u: Tx) {
    HoldsKey(t) && HoldsKey(u) && SlotOf(t.c) == SlotOf(u.c)
  }

  /** No two transactions hold one key. */
  predicate Exclusive(txs: map<nat, Tx>) {
    forall t, u :: t in txs && u in txs && HoldOneKey(txs[t], txs[u]) ==> t == u
  }

  ghost predicate TripsInv(s: State) {
    && (forall t :: t in s.db.trips ==> TripInv(s, t))
    && (forall key :: key in s.history ==> PastInv(s, key))
  }

  ghost predicate OrdersInv(s: State) {
    && |s.placed| == |s.db.orders|
    && (forall k :: 0 <= k < |s.db.orders| ==> OrderInv(s, k))
    && (forall k :: 0 <= k < |s.db.orders| ==> PlacedInv(s, k))
  }

  ghost predicate KeysInv(s: State) {
    && (forall slot: Slot :: ResultInv(s, slot))
    && Spaced(s.placed)
  }

  ghost predicate TxsInv(s: State) {
    && (forall t :: t in s.txs ==> TxInv(s, s.txs[t]))
    && Exclusive(s.txs)
  }

  ghost predicate Inv(s: State) {
    TripsInv(s) && OrdersInv(s) && KeysInv(s) && TxsInv(s)
  }
}
