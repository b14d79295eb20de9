/**
 Trips: the public projection with all its checks, the stored offer, and the pure
 transitions of an offer. Instants are written as ISO texts on the way in and out, and
 stored as milliseconds. Language- and zone-dependent functions are parameters.
 */
module Trips {
  import opened Wrappers
  import opened Text

  // ---------------------------------------------------------------- instants

  /** An ISO date-time text: its wall clock, read as if it were UTC, and its offset in minutes. */
  datatype IsoText = Malformed | Iso(wallClock: int, offset: int)

  const YEAR_0000 := -62_167_219_200_000
  const YEAR_10000 := 253_402_300_800_000

  /** The texts `requireIsoDateTime` accepts: four-digit years, offsets up to fourteen hours. */
  predicate ValidIso(t: IsoText) {
    t.Iso? && YEAR_0000 <= t.wallClock < YEAR_10000 && -840 <= t.offset <= 840
  }

  function InstantOf(t: IsoText): int {
    if t.Iso? then t.wallClock - t.offset * 60_000 else 0
  }

  /** `toISOString`: outside the years 0000 to 9999 it writes six-digit years, which are not accepted back. */
  function Render(instant: int): IsoText {
    if YEAR_0000 <= instant < YEAR_10000 then Iso(instant, 0) else Malformed
  }

  // ---------------------------------------------------------------- schedules

  datatype ServiceMode = ShopForMe | CarryMyItem

  /** A schedule whose instants are texts (`IsoText`) or stored values (`int`). */
  datatype Schedule<T> = Schedule(
    originLabel: Text, originTimeZone: Text, destinationLabel: Text, destinationTimeZone: Text,
    serviceWindowStartAt: T, serviceWindowEndAt: T, departureDate: Text, departureAt: T,
    requestOpenAt: T, requestDeadline: T, estimatedArrivalAt: T, serviceModes: seq<ServiceMode>)

  function MapInstants<T, U>(s: Schedule<T>, f: T -> U): Schedule<U> {
    Schedule(s.originLabel, s.originTimeZone, s.destinationLabel, s.destinationTimeZone,
             f(s.serviceWindowStartAt), f(s.serviceWindowEndAt), s.departureDate, f(s.departureAt),
             f(s.requestOpenAt), f(s.requestDeadline), f(s.estimatedArrivalAt), s.serviceModes)
  }

  predicate AllInstants<T>(s: Schedule<T>, p: T -> bool) {
    && p(s.serviceWindowStartAt) && p(s.serviceWindowEndAt) && p(s.departureAt)
    && p(s.requestOpenAt) && p(s.requestDeadline) && p(s.estimatedArrivalAt)
  }

  /** Storing a schedule turns its texts into instants; reading it back renders them in UTC. */
  function Stored(s: Schedule<IsoText>): Schedule<int> {
    MapInstants(s, InstantOf)
  }

  function Rendered(s: Schedule<int>): Schedule<IsoText> {
    MapInstants(s, Render)
  }

  // ---------------------------------------------------------------- projection

  datatype PublicTerms = PublicTerms(
    displayName: Text, sellerLocationLabel: Text, deliverySummary: Text, rateSummary: Text)

  datatype Answer = Answer(author: Text, message: Text, createdAt: IsoText)

  datatype Question = Question(
    id: Text, author: Text, message: Text, createdAt: IsoText, answer: Option<Answer>)

  datatype TripInput = TripInput(
    id: Text, schedule: Schedule<IsoText>, remainingCapacity: int, terms: PublicTerms, questions: seq<Question>)

  datatype Refusal =
    | LabelTooShort
    | SameRoute
    | InvalidDate
    | InvalidTimeZone
    | InvalidInstant
    | DepartureDateMismatch
    | ServiceWindowOrder
    | RequestWindowOrder
    | DeadlineAfterServiceWindow
    | ServiceWindowAfterDeparture
    | DeadlineNotBeforeDeparture
    | ArrivalBeforeDeparture
    | NoServiceMode
    | NegativeCapacity
    | AnswerPredatesQuestion
    | DuplicateQuestion

  /** Lower-casing, time-zone and calendar functions of the platform. */
  datatype Locale = Locale(
    lower: Text -> Text, knownZone: Text -> bool, validDate: Text -> bool, localDate: (int, Text) -> Text)

  predicate LabelOk(t: Text) {
    |Trim(t)| >= 2
  }

  function Distinct(modes: seq<ServiceMode>): (r: seq<ServiceMode>)
    ensures forall m :: m in r <==> m in modes
    ensures forall i, j :: 0 <= i < j < |r| ==> r[i] != r[j]
  {
    if |modes| == 0 then []
    else
      var front := Distinct(modes[..|modes| - 1]);
      var last := modes[|modes| - 1];
      assert forall m :: m in modes <==> m in modes[..|modes| - 1] || m == last;
      if last in front then front else front + [last]
  }

  function CheckSchedule(locale: Locale, s: Schedule<IsoText>): Option<Refusal> {
    if !LabelOk(s.originLabel) || !LabelOk(s.destinationLabel) then Some(LabelTooShort)
    else if locale.lower(Trim(s.originLabel)) == locale.lower(Trim(s.destinationLabel)) then Some(SameRoute)
    else if !locale.validDate(s.departureDate) then Some(InvalidDate)
    else if !locale.knownZone(Trim(s.originTimeZone)) || !locale.knownZone(Trim(s.destinationTimeZone))
      then Some(InvalidTimeZone)
    else if !AllInstants(s, ValidIso) then Some(InvalidInstant)
    else if locale.localDate(InstantOf(s.departureAt), Trim(s.originTimeZone)) != s.departureDate
      then Some(DepartureDateMismatch)
    else CheckOrder(Stored(s))
  }

  function CheckOrder(s: Schedule<int>): Option<Refusal> {
    if s.serviceWindowStartAt >= s.serviceWindowEndAt then Some(ServiceWindowOrder)
    else if s.requestOpenAt >= s.requestDeadline then Some(RequestWindowOrder)
    else if s.requestDeadline > s.serviceWindowEndAt then Some(DeadlineAfterServiceWindow)
    else if s.serviceWindowEndAt > s.departureAt then Some(ServiceWindowAfterDeparture)
    else if s.requestDeadline >= s.departureAt then Some(DeadlineNotBeforeDeparture)
    else if s.estimatedArrivalAt < s.departureAt then Some(ArrivalBeforeDeparture)
    else if |Distinct(s.serviceModes)| == 0 then Some(NoServiceMode)
    else None
  }

  function CheckQuestion(q: Question): Option<Refusal> {
    if !ValidIso(q.createdAt) then Some(InvalidInstant)
    else if q.answer.Some? && (!LabelOk(q.answer.value.author) || !LabelOk(q.answer.value.message))
      then Some(LabelTooShort)
    else if q.answer.Some? && !ValidIso(q.answer.value.createdAt) then Some(InvalidInstant)
    else if q.answer.Some? && InstantOf(q.answer.value.createdAt) < InstantOf(q.createdAt)
      then Some(AnswerPredatesQuestion)
    else if !LabelOk(q.id) || !LabelOk(q.author) || !LabelOk(q.message) then Some(LabelTooShort)
    else None
  }

  function TrimQuestion(q: Question): Question {
    Question(Trim(q.id), Trim(q.author), Trim(q.message), q.createdAt,
             if q.answer.None? then None
             else Some(Answer(Trim(q.answer.value.author), Trim(q.answer.value.message), q.answer.value.createdAt)))
  }

  function CheckQuestions(questions: seq<Question>): Option<Refusal> {
    if |questions| == 0 then None
    else if CheckQuestion(questions[0]).Some? then CheckQuestion(questions[0])
    else CheckQuestions(questions[1..])
  }

  function TrimQuestions(questions: seq<Question>): (r: seq<Question>)
    ensures |r| == |questions|
    ensures forall i :: 0 <= i < |r| ==> r[i] == TrimQuestion(questions[i])
  {
    seq(|questions|, i requires 0 <= i < |questions| => TrimQuestion(questions[i]))
  }

  predicate UniqueIds(questions: seq<Question>) {
    forall i, j :: 0 <= i < j < |questions| ==> questions[i].id != questions[j].id
  }

  function TimeOf(q: Question): int {
    InstantOf(q.createdAt)
  }

  /** Inserts before the first entry that is not older: equal times keep their order. */
  function InsertByTime(q: Question, sorted: seq<Question>): seq<Question> {
    if |sorted| == 0 || TimeOf(q) <= TimeOf(sorted[0]) then [q] + sorted
    else [sorted[0]] + InsertByTime(q, sorted[1..])
  }

  /** The stable sort by creation time. */
  function SortByTime(questions: seq<Question>): seq<Question> {
    if |questions| == 0 then [] else InsertByTime(questions[0], SortByTime(questions[1..]))
  }

  predicate TermsOk(terms: PublicTerms) {
    LabelOk(terms.displayName) && LabelOk(terms.sellerLocationLabel)
    && LabelOk(terms.deliverySummary) && LabelOk(terms.rateSummary)
  }

  function TrimTerms(terms: PublicTerms): PublicTerms {
    PublicTerms(Trim(terms.displayName), Trim(terms.sellerLocationLabel),
                Trim(terms.deliverySummary), Trim(terms.rateSummary))
  }

  /** `createPublishedTrip`: the normalised projection, or the first check that fails. */
  function CreatePublishedTrip(locale: Locale, input: TripInput): Result<TripInput, Refusal> {
    var s := input.schedule;
    if CheckSchedule(locale, s).Some? then Err(CheckSchedule(locale, s).value)
    else if input.remainingCapacity < 0 then Err(NegativeCapacity)
    else if CheckQuestions(input.questions).Some? then Err(CheckQuestions(input.questions).value)
    else if !UniqueIds(TrimQuestions(input.questions)) then Err(DuplicateQuestion)
    else if !TermsOk(input.terms) then Err(LabelTooShort)
    else
      Ok(input.(
        schedule := s.(originLabel := Trim(s.originLabel), originTimeZone := Trim(s.originTimeZone),
                       destinationLabel := Trim(s.destinationLabel),
                       destinationTimeZone := Trim(s.destinationTimeZone),
                       serviceModes := Distinct(s.serviceModes)),
        terms := TrimTerms(input.terms),
        questions := SortByTime(TrimQuestions(input.questions))))
  }

  // ------------------------------------------------ the loops of the projection

  /** The uniqueness loop: remembers every identifier seen so far. */
  method IdsAreUnique(questions: seq<Question>) returns (unique: bool)
    ensures unique <==> UniqueIds(questions)
  {
    var seen: set<Text> := {};
    for k := 0 to |questions|
      invariant seen == set i | 0 <= i < k :: questions[i].id
      invariant UniqueIds(questions[..k])
    {
      if questions[k].id in seen {
        return false;
      }
      seen := seen + {questions[k].id};
    }
    assert questions[..|questions|] == questions;
    return true;
  }

  predicate OrderedByTime(questions: seq<Question>) {
    forall i, j :: 0 <= i < j < |questions| ==> TimeOf(questions[i]) <= TimeOf(questions[j])
  }

  /** The entries created at `time`, in order. */
  function At(questions: seq<Question>, time: int): seq<Question> {
    if |questions| == 0 then []
    else (if TimeOf(questions[0]) == time then [questions[0]] else []) + At(questions[1..], time)
  }

  lemma {:induction false} InsertByTimePermutes(q: Question, sorted: seq<Question>)
    ensures multiset(InsertByTime(q, sorted)) == multiset(sorted) + multiset{q}
  {
    if |sorted| == 0 || TimeOf(q) <= TimeOf(sorted[0]) {
      assert InsertByTime(q, sorted) == [q] + sorted;
    } else {
      InsertByTimePermutes(q, sorted[1..]);
      assert sorted == [sorted[0]] + sorted[1..];
    }
  }

  lemma {:induction false} InsertByTimeOrders(q: Question, sorted: seq<Question>)
    requires OrderedByTime(sorted)
    ensures OrderedByTime(InsertByTime(q, sorted))
  {
    if |sorted| > 0 && TimeOf(q) > TimeOf(sorted[0]) {
      InsertByTimeOrders(q, sorted[1..]);
      InsertByTimePermutes(q, sorted[1..]);
      var tail := InsertByTime(q, sorted[1..]);
      forall j | 0 <= j < |tail|
        ensures TimeOf(sorted[0]) <= TimeOf(tail[j])
      {
        assert tail[j] in multiset(tail);
        assert tail[j] in sorted[1..] || tail[j] == q;
      }
    }
  }

  lemma AtStep(q: Question, rest: seq<Question>, time: int)
    ensures At([q] + rest, time) == (if TimeOf(q) == time then [q] else []) + At(rest, time)
  {
    assert ([q] + rest)[1..] == rest;
  }

  lemma {:induction false} InsertByTimeStable(q: Question, sorted: seq<Question>, time: int)
    ensures At(InsertByTime(q, sorted), time) == (if TimeOf(q) == time then [q] else []) + At(sorted, time)
  {
    if |sorted| == 0 || TimeOf(q) <= TimeOf(sorted[0]) {
      AtStep(q, sorted, time);
    } else {
      InsertByTimeStable(q, sorted[1..], time);
      AtStep(sorted[0], InsertByTime(q, sorted[1..]), time);
      assert TimeOf(q) != TimeOf(sorted[0]);
    }
  }

  lemma {:induction false} SortByTimePermutes(questions: seq<Question>)
    ensures multiset(SortByTime(questions)) == multiset(questions)
  {
    if |questions| > 0 {
      SortByTimePermutes(questions[1..]);
      InsertByTimePermutes(questions[0], SortByTime(questions[1..]));
      assert questions == [questions[0]] + questions[1..];
    }
  }

  lemma {:induction false} SortByTimeOrders(questions: seq<Question>)
    ensures OrderedByTime(SortByTime(questions))
  {
    if |questions| > 0 {
      SortByTimeOrders(questions[1..]);
      InsertByTimeOrders(questions[0], SortByTime(questions[1..]));
    }
  }

  /** The sort is stable: the entries of one time keep their order. */
  lemma {:induction false} SortByTimeStable(questions: seq<Question>, time: int)
    ensures At(SortByTime(questions), time) == At(questions, time)
  {
    if |questions| > 0 {
      SortByTimeStable(questions[1..], time);
      InsertByTimeStable(questions[0], SortByTime(questions[1..]), time);
    }
  }

  // ---------------------------------------------------------------- offers

  datatype Status = Draft | PendingModeration | Published | Rejected | Archived

  /** A stored offer. Capacity is counted in hundredths of a kilogram, the stored precision. */
  datatype Offer = Offer(
    id: Text, owner: nat, profile: nat, schedule: Schedule<int>, remainingCapacity: int,
    status: Status, version: nat, moderationReason: Option<Text>, publishedAt: Option<int>)

  datatype Conflict = WrongState(status: Status) | InvalidReason

  function ProjectionInput(id: Text, schedule: Schedule<IsoText>, capacity: int, terms: PublicTerms): TripInput {
    TripInput(id, schedule, capacity, terms, [])
  }

  /** A draft is accepted when its projection would be; it is stored with duplicate modes removed. */
  function CreateOffer(
      locale: Locale, id: Text, owner: nat, profile: nat, schedule: Schedule<IsoText>, capacity: int, terms: PublicTerms)
    : Result<Offer, Refusal>
  {
    var projection := CreatePublishedTrip(locale, ProjectionInput(id, schedule, capacity, terms));
    if projection.Err? then Err(projection.error)
    else
      Ok(Offer(id, owner, profile,
               Stored(schedule.(serviceModes := Distinct(schedule.serviceModes))), capacity,
               Draft, 1, None, None))
  }

  function SubmitOffer(offer: Offer): Result<Offer, Conflict> {
    if offer.status != Draft then Err(WrongState(offer.status))
    else Ok(offer.(status := PendingModeration, version := offer.version + 1))
  }

  function ApproveOffer(offer: Offer, publishedAt: int): Result<Offer, Conflict> {
    if offer.status != PendingModeration then Err(WrongState(offer.status))
    else Ok(offer.(publishedAt := Some(publishedAt), status := Published, version := offer.version + 1))
  }

  function RejectOffer(offer: Offer, reason: Text): Result<Offer, Conflict> {
    if offer.status != PendingModeration then Err(WrongState(offer.status))
    else if !(2 <= |Trim(reason)| <= 500) then Err(InvalidReason)
    else Ok(offer.(moderationReason := Some(Trim(reason)), status := Rejected, version := offer.version + 1))
  }
}
