/**
 Submitting an order: claim the idempotency key, read the trip, check it, reserve capacity
 under a version guard, and write the order and the stored result, all or nothing.
 `Submit` is the whole use case run alone at one instant; the class runs it step by step
 over the tables. Digests are injective, so a fingerprint is the text it is taken of.
 */
module OrderSubmission {
  import opened Wrappers
  import opened Text
  import opened Trips
  import opened OrderTerms

  /** A customer's idempotency key. */
  datatype Slot = Slot(customer: nat, keyDigest: Text)

  datatype StoredResult = StoredResult(fingerprint: Text, requestId: Text, completedAt: int, expiresAt: int)

  /** The tables a submission reads and writes; `sellers` holds the active account and profile pairs. */
  datatype Database = Database(
    trips: map<Text, Offer>, orders: seq<Row>, results: map<Slot, StoredResult>, sellers: set<(nat, nat)>)

  /** A submission with its terms normalised and its fingerprint taken. */
  datatype Command = Command(customer: nat, keyDigest: Text, tripId: Text, terms: Terms, fingerprint: Text)

  datatype Reason =
    | TermsInvalid
    | ActorRefused
    | KeyConflict
    | KeyInProgress
    | TripMissing
    | SelfOrder
    | OfferIneligible
    | ModeUnavailable
    | CapacityUnavailable
    | RevisionStale
    | StorageRefused
    | IdTaken
    | Overtaken
    | RetriesExhausted
    | ConnectionFailed

  datatype Outcome = Created(request: Request) | Replayed(request: Request) | Refused(reason: Reason)

  /** Unique-key and write conflicts, after which the unit of work tries again. */
  predicate Retryable(reason: Reason) {
    reason == IdTaken || reason == Overtaken
  }

  /** Seven days, in milliseconds. */
  const RETENTION := 604_800_000

  function SlotOf(c: Command): Slot {
    Slot(c.customer, c.keyDigest)
  }

  /** What happens before the transaction: the terms are normalised and the fingerprint is that of the result. */
  function Prepare(customer: nat, keyDigest: Text, tripId: Text, input: Terms): (r: Result<Command, TermsError>)
    ensures r.Ok? ==> Prepared(r.value)
  {
    var terms := Normalize(input);
    if terms.Err? then Err(terms.error)
    else
      NormalizeIdempotent(input);
      Ok(Command(customer, keyDigest, tripId, terms.value, FingerprintText(tripId, terms.value)))
  }

  predicate Prepared(c: Command) {
    Normalized(c.terms) && c.fingerprint == FingerprintText(c.tripId, c.terms)
  }

  /** The requested capacity in hundredths of a kilogram; normalised terms ask for a whole number of them. */
  function UnitsOf(c: Command): int {
    RequestedCapacityGrams(c.terms) / 10
  }

  lemma UnitsAreExact(c: Command)
    requires Normalized(c.terms)
    ensures 1 <= UnitsOf(c) <= 10_000_000 && DecimalToGrams(UnitsOf(c)) == RequestedCapacityGrams(c.terms)
    ensures GramsToDecimal(RequestedCapacityGrams(c.terms)) == Some(UnitsOf(c))
  {
    WholeSteps(RequestedCapacityGrams(c.terms));
  }

  // ---------------------------------------------------------------- claim

  datatype ClaimReply =
    | Claimed(prior: Option<StoredResult>)
    | Replay(request: Option<Request>)
    | Mismatch

  function FindOrder(orders: seq<Row>, id: Text): (r: Option<Row>)
    ensures r.Some? ==> r.value in orders && r.value.id == id
    ensures r.None? ==> forall o <- orders :: o.id != id
  {
    if |orders| == 0 then None
    else if orders[0].id == id then Some(orders[0])
    else FindOrder(orders[1..], id)
  }

  /** What the key answers: free, free again after its result expired, the stored order, or another request's key. */
  function Claim(db: Database, c: Command, observedAt: int): ClaimReply {
    if SlotOf(c) !in db.results then Claimed(None)
    else
      var existing := db.results[SlotOf(c)];
      if existing.expiresAt <= observedAt then Claimed(Some(existing))
      else if existing.fingerprint != c.fingerprint then Mismatch
      else
        var row := FindOrder(db.orders, existing.requestId);
        Replay(if row.None? then None else FromRow(row.value))
  }

  // ---------------------------------------------------------------- checks

  predicate OpenAt(trip: Offer, now: int) {
    trip.schedule.requestOpenAt <= now < trip.schedule.requestDeadline
  }

  /** `requireOrderEligible`. */
  function CheckEligible(trip: Offer, c: Command, now: int): Option<Reason> {
    if trip.owner == c.customer then Some(SelfOrder)
    else if trip.status != Published then Some(OfferIneligible)
    else if ModeOf(c.terms) !in trip.schedule.serviceModes then Some(ModeUnavailable)
    else if !OpenAt(trip, now) then Some(OfferIneligible)
    else None
  }

  /** The guarded decrement: the row after it, or nothing when a guard fails. */
  function Reserve(db: Database, tripId: Text, expectedVersion: nat, units: int, reservedAt: int): Option<Offer> {
    if tripId !in db.trips then None
    else
      var row := db.trips[tripId];
      if row.status == Published && row.version == expectedVersion && row.remainingCapacity >= units
         && OpenAt(row, reservedAt)
      then Some(row.(remainingCapacity := row.remainingCapacity - units, version := row.version + 1))
      else None
  }

  /** The version-guarded write of a whole row. */
  function Save(db: Database, offer: Offer, expectedVersion: nat): Option<Database> {
    if offer.id in db.trips && db.trips[offer.id].version == expectedVersion
    then Some(db.(trips := db.trips[offer.id := offer]))
    else None
  }

  function BuildRequest(c: Command, id: Text, trip: Offer, reservedAt: int): Request {
    Request(id, trip.id, c.customer, trip.owner, trip.profile, ModeOf(c.terms), trip.version,
            RequestedCapacityGrams(c.terms), reservedAt, trip.schedule.originLabel, trip.schedule.destinationLabel,
            trip.schedule.requestOpenAt, trip.schedule.requestDeadline, trip.schedule.departureAt,
            trip.schedule.estimatedArrivalAt, c.terms)
  }

  /** Characters as the database counts them: a surrogate pair is one. */
  function Characters(t: Text): (n: nat)
    ensures n <= |t|
    ensures |t| > 0 ==> n > 0
  {
    if |t| == 0 then 0
    else if |t| > 1 && IsHighSurrogate(t[0]) && IsLowSurrogate(t[1]) then 1 + Characters(t[2..])
    else 1 + Characters(t[1..])
  }

  /** The surrogate pairs of a text from unit `i` on. */
  function PairsFrom(t: Text, i: nat): nat
    decreases |t| - i
  {
    if i + 1 >= |t| then 0
    else (if IsHighSurrogate(t[i]) && IsLowSurrogate(t[i + 1]) then 1 else 0) + PairsFrom(t, i + 1)
  }

  /** A text has as many characters as units, less one for each surrogate pair. */
  lemma {:induction false} CharactersCount(t: Text, i: nat)
    requires i <= |t|
    ensures Characters(t[i..]) + PairsFrom(t, i) == |t| - i
    decreases |t| - i
  {
    if i + 1 < |t| && IsHighSurrogate(t[i]) && IsLowSurrogate(t[i + 1]) {
      assert t[i..][2..] == t[i + 2..];
      CharactersCount(t, i + 2);
      assert PairsFrom(t, i + 1) == PairsFrom(t, i + 2);
    } else if i < |t| {
      assert t[i..][1..] == t[i + 1..];
      CharactersCount(t, i + 1);
    }
  }

  predicate Within(value: Option<int>, low: int, high: int) {
    value.Some? && low <= value.value <= high
  }

  predicate OptionalTextWithin(t: Option<Text>, high: nat) {
    t.None? || 1 <= Characters(t.value) <= high
  }

  /** Each mode fills its own columns. */
  predicate ModeColumnsAllowed(row: Row) {
    match row.mode
    case ShopForMe =>
      && Within(row.quantity, 1, 100) && Within(row.maximumBudgetIdr, 1, 2_000_000_000)
      && row.allowSubstitution.Some? && OptionalTextWithin(row.variation, 200)
      && row.declaredValueIdr.None? && row.declaredWeight.None? && row.lengthMillimeters.None?
      && row.widthMillimeters.None? && row.heightMillimeters.None? && row.handlingInstructions.None?
    case CarryMyItem =>
      && row.quantity.None? && row.maximumBudgetIdr.None? && row.allowSubstitution.None? && row.variation.None?
      && Within(row.declaredValueIdr, 1, 2_000_000_000)
      && row.declaredWeight == Some(row.reservedCapacity)
      && Within(row.lengthMillimeters, 1, 10_000) && Within(row.widthMillimeters, 1, 10_000)
      && Within(row.heightMillimeters, 1, 10_000) && OptionalTextWithin(row.handlingInstructions, 500)
  }

  /** The column checks of the order table. */
  predicate RowAllowed(row: Row) {
    && row.customer != row.seller
    && row.sourceOfferVersion > 0
    && 1 <= row.reservedCapacity <= 10_000_000
    && 3 <= Characters(row.itemDescription) <= 500
    && row.orderOpenAt < row.orderCloseAt < row.departureAt < row.estimatedArrivalAt
    && row.orderOpenAt <= row.submittedAt < row.orderCloseAt
    && ModeColumnsAllowed(row)
  }

  // ---------------------------------------------------------------- the use case

  function ResultFor(c: Command, id: Text, reservedAt: int): StoredResult {
    StoredResult(c.fingerprint, id, reservedAt, reservedAt + RETENTION)
  }

  /** The row written for a request; requests built from normalised terms always have one. */
  function RowOf(r: Request): Row
    requires ToRow(r).Some?
  {
    ToRow(r).value
  }

  /** An order built from normalised terms has a row, reserves exactly what was asked, and reads back in its stored form. */
  lemma BuiltIsStorable(c: Command, id: Text, trip: Offer, reservedAt: int)
    requires Normalized(c.terms)
    ensures ToRow(BuildRequest(c, id, trip, reservedAt)).Some?
    ensures RowOf(BuildRequest(c, id, trip, reservedAt)).reservedCapacity == UnitsOf(c)
    ensures DecimalToGrams(UnitsOf(c)) == RequestedCapacityGrams(c.terms)
    ensures FromRow(RowOf(BuildRequest(c, id, trip, reservedAt)))
         == Some(StoredForm(BuildRequest(c, id, trip, reservedAt)))
  {
    UnitsAreExact(c);
    StorageRoundTrip(BuildRequest(c, id, trip, reservedAt));
  }

  /** The row the order table takes for a request, if it passes the checks. */
  function Accepted(r: Request): Option<Row> {
    if ToRow(r).Some? && RowAllowed(RowOf(r)) then ToRow(r) else None
  }

  /**
   From the seller check to the commit, on the tables as they are now: `prior` is the
   expired result seen by the claim and `trip` the row read before, which may be stale;
   `row` is what the order table would take.
   */
  function Write(
      db: Database, slot: Slot, prior: Option<StoredResult>, trip: Offer, units: int, reservedAt: int,
      row: Option<Row>, result: StoredResult)
    : Result<Database, Reason>
  {
    if prior.Some? && !(slot in db.results && db.results[slot] == prior.value) then Err(Overtaken)
    else if (trip.owner, trip.profile) !in db.sellers then Err(OfferIneligible)
    else if trip.remainingCapacity < units then Err(CapacityUnavailable)
    else
      var reserved := Reserve(db, trip.id, trip.version, units, reservedAt);
      if reserved.None? then Err(RevisionStale)
      else if row.None? then Err(StorageRefused)
      else if FindOrder(db.orders, result.requestId).Some? then Err(IdTaken)
      else if prior.None? && slot in db.results then Err(Overtaken)
      else
        Ok(Database(db.trips[trip.id := reserved.value], db.orders + [row.value],
                    db.results[slot := result], db.sellers))
  }

  function Finish(db: Database, c: Command, id: Text, prior: Option<StoredResult>, trip: Offer, reservedAt: int)
    : Result<Database, Reason>
  {
    Write(db, SlotOf(c), prior, trip, UnitsOf(c), reservedAt,
          Accepted(BuildRequest(c, id, trip, reservedAt)), ResultFor(c, id, reservedAt))
  }

  /** Deleting the expired result first changes nothing about the rest. */
  lemma WriteAfterDelete(
      db: Database, slot: Slot, prior: StoredResult, trip: Offer, units: int, reservedAt: int,
      row: Option<Row>, result: StoredResult)
    requires slot in db.results && db.results[slot] == prior
    ensures Write(db, slot, Some(prior), trip, units, reservedAt, row, result)
         == Write(db.(results := db.results - {slot}), slot, None, trip, units, reservedAt, row, result)
  {
    assert (db.results - {slot})[slot := result] == db.results[slot := result];
  }

  /** The whole use case, alone, observing `observedAt` and reserving at `reservedAt`. */
  function Submit(db: Database, c: Command, id: Text, observedAt: int, reservedAt: int): (Database, Outcome)
  {
    match Claim(db, c, observedAt)
    case Mismatch => (db, Refused(KeyConflict))
    case Replay(request) => (db, if request.Some? then Replayed(request.value) else Refused(StorageRefused))
    case Claimed(prior) =>
      if c.tripId !in db.trips then (db, Refused(TripMissing))
      else
        var trip := db.trips[c.tripId];
        if CheckEligible(trip, c, observedAt).Some? then (db, Refused(CheckEligible(trip, c, observedAt).value))
        else
          var finished := Finish(db, c, id, prior, trip, reservedAt);
          if finished.Err? then (db, Refused(finished.error))
          else (finished.value, Created(BuildRequest(c, id, trip, reservedAt)))
  }

  // ---------------------------------------------------------------- which trips can be ordered at all

  /** A lone surrogate is one character before and after it is stored. */
  lemma {:induction false} CharactersScrub(t: Text)
    ensures Characters(Scrub(t)) == Characters(t)
  {
    if |t| == 0 {
    } else if |t| > 1 && IsHighSurrogate(t[0]) && IsLowSurrogate(t[1]) {
      CharactersScrub(t[2..]);
      assert Scrub(t)[2..] == Scrub(t[2..]);
    } else {
      CharactersScrub(t[1..]);
      assert Scrub(t)[1..] == Scrub(t[1..]);
      assert !IsHighSurrogate(Scrub(t)[0]);
    }
  }

  lemma NormalizedCharacters(t: Text, maximum: nat)
    requires |t| > 0 && TextFits(t, 1, maximum) && Trim(t) == t
    ensures 1 <= Characters(Scrub(t)) <= maximum
  {
    CharactersScrub(t);
  }

  lemma ShopColumnsAllowed(r: Request)
    requires Normalized(r.terms) && r.terms.Shop? && r.mode == ModeOf(r.terms)
    requires ToRow(r).Some?
    ensures ModeColumnsAllowed(RowOf(r))
  {
    if r.terms.variation.Some? {
      NormalizedCharacters(r.terms.variation.value, 200);
    }
  }

  lemma CarryColumnsAllowed(r: Request)
    requires Normalized(r.terms) && r.terms.Carry? && r.mode == ModeOf(r.terms)
    requires r.reservedCapacityGrams == RequestedCapacityGrams(r.terms) && ToRow(r).Some?
    ensures ModeColumnsAllowed(RowOf(r))
  {
    if r.terms.handlingInstructions.Some? {
      NormalizedCharacters(r.terms.handlingInstructions.value, 500);
    }
  }

  lemma TermsAllowed(c: Command, id: Text, trip: Offer, reservedAt: int)
    requires Normalized(c.terms)
    ensures Accepted(BuildRequest(c, id, trip, reservedAt)).Some?
       <==> && c.customer != trip.owner && trip.version > 0
            && 3 <= Characters(c.terms.itemDescription)
            && trip.schedule.requestOpenAt < trip.schedule.requestDeadline < trip.schedule.departureAt
               < trip.schedule.estimatedArrivalAt
            && OpenAt(trip, reservedAt)
  {
    var r := BuildRequest(c, id, trip, reservedAt);
    UnitsAreExact(c);
    if c.terms.Shop? {
      ShopColumnsAllowed(r);
    } else {
      CarryColumnsAllowed(r);
    }
    DescriptionFits(c);
    assert RowOf(r).itemDescription == Scrub(c.terms.itemDescription);
  }

  lemma DescriptionFits(c: Command)
    requires Normalized(c.terms)
    ensures Characters(Scrub(c.terms.itemDescription)) == Characters(c.terms.itemDescription) <= 500
  {
    CharactersScrub(c.terms.itemDescription);
    NormalizedCharacters(c.terms.itemDescription, 500);
  }

  /**
   On an eligible trip with a sound schedule, the order table refuses a built order exactly
   when the trip arrives at the instant it departs, which the trip's own checks allow, or when
   surrogate pairs leave fewer than three characters in the item description.
   */
  lemma OrderTableRefuses(c: Command, id: Text, trip: Offer, now: int, reservedAt: int)
    requires Normalized(c.terms) && trip.version > 0 && CheckOrder(trip.schedule).None?
    requires CheckEligible(trip, c, now).None? && OpenAt(trip, reservedAt)
    ensures Accepted(BuildRequest(c, id, trip, reservedAt)).None?
       <==> trip.schedule.estimatedArrivalAt == trip.schedule.departureAt || Characters(c.terms.itemDescription) < 3
  {
    TermsAllowed(c, id, trip, reservedAt);
  }

  lemma InstantIsRefused(r: Request)
    requires r.estimatedArrivalAt == r.departureAt
    ensures Accepted(r).None?
  {
  }

  /** So no submission ever succeeds on a trip that arrives when it departs. */
  lemma InstantTripsTakeNoOrders(db: Database, c: Command, id: Text, observedAt: int, reservedAt: int)
    requires c.tripId in db.trips
    requires db.trips[c.tripId].schedule.estimatedArrivalAt == db.trips[c.tripId].schedule.departureAt
    ensures Submit(db, c, id, observedAt, reservedAt).0 == db
    ensures !Submit(db, c, id, observedAt, reservedAt).1.Created?
  {
    InstantIsRefused(BuildRequest(c, id, db.trips[c.tripId], reservedAt));
  }

  /** Run alone, a submission is never overtaken: its claim and its writes see one table. */
  lemma AloneNeverOvertaken(db: Database, c: Command, id: Text, observedAt: int, reservedAt: int)
    ensures Submit(db, c, id, observedAt, reservedAt).1 != Refused(Overtaken)
  {
  }

  // ---------------------------------------------------------------- retries

  /** What the database connection does to one attempt: nothing, a retryable conflict, or another failure. */
  datatype Fault = NoFault | WriteConflict | Failure

  /** What an attempt meets: its actor's session, its key's lock, the clock, a fresh identifier, and a fault. */
  datatype Attempt = Attempt(
    id: Text, current: bool, acquired: bool, observedAt: int, reservedAt: int, fault: Fault)

  /** One transaction: the actor is checked first, then the key's lock is tried. */
  function Transaction(db: Database, c: Command, a: Attempt): (Database, Outcome) {
    if !a.current then (db, Refused(ActorRefused))
    else if !a.acquired then (db, Refused(KeyInProgress))
    else Submit(db, c, a.id, a.observedAt, a.reservedAt)
  }

  /** An attempt and what it would do to the tables if nothing interfered. */
  datatype Try = Try(fault: Fault, after: Database, outcome: Outcome)

  function TryOf(db: Database, c: Command, a: Attempt): Try {
    var (after, outcome) := Transaction(db, c, a);
    Try(a.fault, after, outcome)
  }

  function TriesOf(db: Database, c: Command, attempts: seq<Attempt>): (tries: seq<Try>)
    ensures |tries| == |attempts|
    ensures forall i :: 0 <= i < |tries| ==> tries[i] == TryOf(db, c, attempts[i])
  {
    seq(|attempts|, i requires 0 <= i < |attempts| => TryOf(db, c, attempts[i]))
  }

  /** A conflict comes from the connection or from a unique key of the attempt itself. */
  predicate Conflicts(t: Try) {
    t.fault.WriteConflict? || (t.fault.NoFault? && t.outcome.Refused? && Retryable(t.outcome.reason))
  }

  /** The first attempt without a retryable conflict decides; conflicts and failures leave the tables as they were. */
  function Execution(db: Database, tries: seq<Try>): (Database, Outcome) {
    if |tries| == 0 then (db, Refused(RetriesExhausted))
    else if Conflicts(tries[0]) then Execution(db, tries[1..])
    else if tries[0].fault.Failure? then (db, Refused(ConnectionFailed))
    else (tries[0].after, tries[0].outcome)
  }

  /** Attempt `k` is the first without a retryable conflict, and nothing else failed in it. */
  predicate Decides(tries: seq<Try>, k: nat) {
    && k < |tries| && !Conflicts(tries[k]) && tries[k].fault.NoFault?
    && forall i :: 0 <= i < k ==> Conflicts(tries[i])
  }

  /**
   Whatever the attempts met, either no attempt decides, the tables are untouched and the
   caller is refused, or they are those after exactly one whole submission.
   */
  lemma {:induction false} RetriesAreAtomic(db: Database, tries: seq<Try>)
    ensures forall k: nat :: Decides(tries, k) ==> Execution(db, tries) == (tries[k].after, tries[k].outcome)
    ensures (forall k: nat :: !Decides(tries, k)) ==> Execution(db, tries).0 == db && Execution(db, tries).1.Refused?
  {
    if |tries| > 0 && Conflicts(tries[0]) {
      RetriesAreAtomic(db, tries[1..]);
      forall k: nat | Decides(tries, k)
        ensures k > 0 && Decides(tries[1..], k - 1)
      {
      }
      forall k: nat | Decides(tries[1..], k)
        ensures Decides(tries, k + 1)
      {
      }
    } else if |tries| > 0 && tries[0].fault.NoFault? {
      assert Decides(tries, 0);
    }
  }

  // ---------------------------------------------------------------- the tables in place

  class MarketplaceDatabase {
    var trips: map<Text, Offer>
    var orders: seq<Row>
    var results: map<Slot, StoredResult>
    var sellers: set<(nat, nat)>

    ghost function Contents(): Database
      reads this
    {
      Database(trips, orders, results, sellers)
    }

    /** `claim`: nothing if the key is locked; otherwise its answer, with an expired result deleted at once. */
    method ClaimSlot(c: Command, acquired: bool, observedAt: int) returns (reply: Option<ClaimReply>)
      modifies this`results
      ensures reply == if acquired then Some(Claim(old(Contents()), c, observedAt)) else None
      ensures results == if reply.Some? && reply.value.Claimed? then old(results) - {SlotOf(c)} else old(results)
    {
      if !acquired {
        return None;
      }
      var slot := SlotOf(c);
      if slot !in results {
        return Some(Claimed(None));
      }
      var existing := results[slot];
      if existing.expiresAt <= observedAt {
        results := results - {slot};
        return Some(Claimed(Some(existing)));
      }
      if existing.fingerprint != c.fingerprint {
        return Some(Mismatch);
      }
      var row := FindOrder(orders, existing.requestId);
      return Some(Replay(if row.None? then None else FromRow(row.value)));
    }

    /** `reserveCapacity`: the time of the reservation, or nothing. */
    method ReserveCapacity(tripId: Text, expectedVersion: nat, units: int, now: int) returns (reservedAt: Option<int>)
      modifies this`trips
      ensures var row := Reserve(old(Contents()), tripId, expectedVersion, units, now);
              && reservedAt == (if row.Some? then Some(now) else None)
              && trips == if row.Some? then old(trips)[tripId := row.value] else old(trips)
    {
      if tripId !in trips {
        return None;
      }
      var row := trips[tripId];
      if row.status != Published || row.version != expectedVersion || row.remainingCapacity < units
         || now < row.schedule.requestOpenAt || now >= row.schedule.requestDeadline {
        return None;
      }
      trips := trips[tripId := row.(remainingCapacity := row.remainingCapacity - units, version := row.version + 1)];
      return Some(now);
    }

    /** `save`: writes the whole row if the version is still the expected one. */
    method SaveOffer(offer: Offer, expectedVersion: nat) returns (saved: bool)
      modifies this`trips
      ensures var after := Save(old(Contents()), offer, expectedVersion);
              && (saved <==> after.Some?)
              && Contents() == if saved then after.value else old(Contents())
    {
      if offer.id in trips && trips[offer.id].version == expectedVersion {
        trips := trips[offer.id := offer];
        return true;
      }
      return false;
    }

    /** `create`: inserts the order's row if its columns pass the checks and its key is new. */
    method CreateOrder(request: Request) returns (refusal: Option<Reason>)
      modifies this`orders
      ensures refusal == if Accepted(request).None? then Some(StorageRefused)
                         else if FindOrder(old(orders), request.id).Some? then Some(IdTaken)
                         else None
      ensures orders == if refusal.None? then old(orders) + [Accepted(request).value] else old(orders)
    {
      var row := Accepted(request);
      if row.None? {
        return Some(StorageRefused);
      }
      if FindOrder(orders, request.id).Some? {
        return Some(IdTaken);
      }
      orders := orders + [row.value];
      return None;
    }

    /** Gives up the transaction. */
    method Rollback(trips: map<Text, Offer>, orders: seq<Row>, results: map<Slot, StoredResult>, reason: Reason)
      returns (outcome: Outcome)
      modifies this`trips, this`orders, this`results
      ensures this.trips == trips && this.orders == orders && this.results == results
      ensures outcome == Refused(reason)
    {
      this.trips, this.orders, this.results := trips, orders, results;
      return Refused(reason);
    }

    /** From the seller check to the stored result; a refusal leaves the tables to be rolled back. */
    method FinishOrder(c: Command, id: Text, trip: Offer, now: int) returns (done: Result<Request, Reason>)
      requires SlotOf(c) !in results
      modifies this`trips, this`orders, this`results
      ensures var after := Finish(old(Contents()), c, id, None, trip, now);
              && (done.Ok? <==> after.Ok?)
              && (done.Err? ==> done.error == after.error)
              && (done.Ok? ==> Contents() == after.value && done.value == BuildRequest(c, id, trip, now))
    {
      if (trip.owner, trip.profile) !in sellers {
        return Err(OfferIneligible);
      }
      if trip.remainingCapacity < UnitsOf(c) {
        return Err(CapacityUnavailable);
      }
      var reserved := ReserveCapacity(trip.id, trip.version, UnitsOf(c), now);
      if reserved.None? {
        return Err(RevisionStale);
      }
      var refusal := CreateOrder(BuildRequest(c, id, trip, reserved.value));
      if refusal.Some? {
        return Err(refusal.value);
      }
      results := results[SlotOf(c) := ResultFor(c, id, reserved.value)];
      return Ok(BuildRequest(c, id, trip, reserved.value));
    }

    /** One transaction of `SubmitOrderRequest`, statement by statement, with rollback on every refusal. */
    method SubmitOrder(c: Command, now: Attempt) returns (outcome: Outcome)
      modifies this`trips, this`orders, this`results
      ensures (Contents(), outcome) == Transaction(old(Contents()), c, now)
    {
      if !now.current {
        return Refused(ActorRefused);
      }
      var oldTrips, oldOrders, oldResults := trips, orders, results;
      var claimed := ClaimSlot(c, now.acquired, now.observedAt);
      if claimed.None? {
        return Refused(KeyInProgress);
      }
      var reply := claimed.value;
      if reply.Replay? {
        return if reply.request.Some? then Replayed(reply.request.value) else Refused(StorageRefused);
      }
      if reply.Mismatch? {
        return Refused(KeyConflict);
      }
      if c.tripId !in trips {
        outcome := Rollback(oldTrips, oldOrders, oldResults, TripMissing);
        return;
      }
      var trip := trips[c.tripId];
      var refusal := CheckEligible(trip, c, now.observedAt);
      if refusal.Some? {
        outcome := Rollback(oldTrips, oldOrders, oldResults, refusal.value);
        return;
      }
      ghost var slotClaimed := Contents();
      if reply.prior.None? {
        assert slotClaimed == old(Contents());
      } else {
        WriteAfterDelete(old(Contents()), SlotOf(c), reply.prior.value, trip, UnitsOf(c), now.reservedAt,
                         Accepted(BuildRequest(c, now.id, trip, now.reservedAt)),
                         ResultFor(c, now.id, now.reservedAt));
      }
      assert Finish(old(Contents()), c, now.id, reply.prior, trip, now.reservedAt)
          == Finish(slotClaimed, c, now.id, None, trip, now.reservedAt);
      var done := FinishOrder(c, now.id, trip, now.reservedAt);
      if done.Err? {
        outcome := Rollback(oldTrips, oldOrders, oldResults, done.error);
        return;
      }
      return Created(done.value);
    }

    /**
     `PrismaMarketplaceUnitOfWork.execute`: at most three attempts, the next only after a retryable
     conflict, of the connection or of a unique key.
     */
    method Execute(c: Command, attempts: seq<Attempt>) returns (outcome: Outcome)
      requires |attempts| == 3
      modifies this`trips, this`orders, this`results
      ensures (Contents(), outcome) == Execution(old(Contents()), TriesOf(old(Contents()), c, attempts))
    {
      outcome := Refused(RetriesExhausted);
      ghost var tries := TriesOf(Contents(), c, attempts);
      for attempt := 0 to 3
        invariant Contents() == old(Contents())
        invariant outcome == Refused(RetriesExhausted)
        invariant Execution(old(Contents()), tries) == Execution(old(Contents()), tries[attempt..])
      {
        assert tries[attempt..][1..] == tries[attempt + 1..];
        var oldTrips, oldOrders, oldResults := trips, orders, results;
        var now := attempts[attempt];
        outcome := SubmitOrder(c, now);
        var retryable := now.fault.WriteConflict?
          || (now.fault.NoFault? && outcome.Refused? && Retryable(outcome.reason));
        if now.fault.NoFault? && !retryable {
          return;
        }
        outcome := Rollback(oldTrips, oldOrders, oldResults, if retryable then RetriesExhausted else ConnectionFailed);
        if attempt == 2 || !retryable {
          return;
        }
      }
    }

    /** `SubmitOrderRequest.execute`: the terms are normalised before any transaction. */
    method SubmitOrderRequest(customer: nat, keyDigest: Text, tripId: Text, input: Terms, attempts: seq<Attempt>)
      returns (outcome: Outcome)
      requires |attempts| == 3
      modifies this`trips, this`orders, this`results
      ensures var prepared := Prepare(customer, keyDigest, tripId, input);
              if prepared.Err? then outcome == Refused(TermsInvalid) && Contents() == old(Contents())
              else (Contents(), outcome)
                   == Execution(old(Contents()), TriesOf(old(Contents()), prepared.value, attempts))
    {
      var prepared := Prepare(customer, keyDigest, tripId, input);
      if prepared.Err? {
        return Refused(TermsInvalid);
      }
      outcome := Execute(prepared.value, attempts);
    }
  }
}
