/**
 What drafting, moderating and projecting a trip answer, read off the texts and instants: which
 schedules are accepted and why others are not, what a draft keeps, how a trip's life goes on,
 and what the public sees of it.
 */
module TripAnswers {
  import opened Wrappers
  import opened Text
  import opened Trips
  import opened TripProjection

  // ---------------------------------------------------------------- instants

  /** A wall clock and its offset move together: an hour later, an hour further east, is the same instant. */
  lemma SameInstant(wallClock: int, offset: int, minutes: int)
    ensures InstantOf(Iso(wallClock, 0)) == wallClock
    ensures InstantOf(Iso(wallClock + 60_000 * minutes, offset + minutes)) == InstantOf(Iso(wallClock, offset))
  {
  }

  /** An instant is written so that it is read back as itself exactly in the years 0000 to 9999. */
  lemma WrittenInstant(instant: int)
    ensures ValidIso(Render(instant)) <==> -62_167_219_200_000 <= instant < 253_402_300_800_000
    ensures ValidIso(Render(instant)) ==> InstantOf(Render(instant)) == instant
  {
  }

  /** Four-digit years and offsets of at most fourteen hours. */
  lemma ValidIsoIff(wallClock: int, offset: int)
    ensures ValidIso(Iso(wallClock, offset)) <==>
              -62_167_219_200_000 <= wallClock < 253_402_300_800_000 && -14 * 60 <= offset <= 14 * 60
    ensures !ValidIso(Malformed)
  {
  }

  // ---------------------------------------------------------------- schedules

  predicate Labelled(t: Text) {
    |Trim(t)| >= 2
  }

  predicate AllReadable(s: Schedule<IsoText>) {
    && ValidIso(s.serviceWindowStartAt) && ValidIso(s.serviceWindowEndAt) && ValidIso(s.departureAt)
    && ValidIso(s.requestOpenAt) && ValidIso(s.requestDeadline) && ValidIso(s.estimatedArrivalAt)
  }

  /** What a schedule must meet, in the order in which it is checked. */
  function ScheduleChecks(locale: Locale, s: Schedule<IsoText>): seq<(bool, Refusal)> {
    [(Labelled(s.originLabel) && Labelled(s.destinationLabel), LabelTooShort),
     (locale.lower(Trim(s.originLabel)) != locale.lower(Trim(s.destinationLabel)), SameRoute),
     (locale.validDate(s.departureDate), InvalidDate),
     (locale.knownZone(Trim(s.originTimeZone)) && locale.knownZone(Trim(s.destinationTimeZone)), InvalidTimeZone),
     (AllReadable(s), InvalidInstant),
     (s.departureDate == locale.localDate(InstantOf(s.departureAt), Trim(s.originTimeZone)), DepartureDateMismatch)]
    + OrderChecks(InstantOf(s.serviceWindowStartAt), InstantOf(s.serviceWindowEndAt), InstantOf(s.departureAt),
                  InstantOf(s.requestOpenAt), InstantOf(s.requestDeadline), InstantOf(s.estimatedArrivalAt),
                  s.serviceModes)
  }

  function OrderChecks(
      windowStart: int, windowEnd: int, departure: int, open: int, deadline: int, arrival: int, modes: seq<ServiceMode>)
    : seq<(bool, Refusal)>
  {
    [(windowStart < windowEnd, ServiceWindowOrder),
     (open < deadline, RequestWindowOrder),
     (deadline <= windowEnd, DeadlineAfterServiceWindow),
     (windowEnd <= departure, ServiceWindowAfterDeparture),
     (deadline < departure, DeadlineNotBeforeDeparture),
     (departure <= arrival, ArrivalBeforeDeparture),
     (ShopForMe in modes || CarryMyItem in modes, NoServiceMode)]
  }

  lemma OrderIsExact(s: Schedule<int>)
    ensures CheckOrder(s)
         == FirstFailing(OrderChecks(s.serviceWindowStartAt, s.serviceWindowEndAt, s.departureAt, s.requestOpenAt,
                                     s.requestDeadline, s.estimatedArrivalAt, s.serviceModes))
  {
    var c := OrderChecks(s.serviceWindowStartAt, s.serviceWindowEndAt, s.departureAt, s.requestOpenAt,
                         s.requestDeadline, s.estimatedArrivalAt, s.serviceModes);
    ModesLeft(s.serviceModes);
    forall k | 0 <= k < 7 {
      FailingFrom(c, k);
    }
    assert c == c[0..] && c[7..] == [];
  }

  lemma ModesLeft(modes: seq<ServiceMode>)
    ensures |Distinct(modes)| == 0 <==> !(ShopForMe in modes || CarryMyItem in modes)
  {
    var d := Distinct(modes);
    if |d| > 0 {
      assert d[0] in d && (d[0] == ShopForMe || d[0] == CarryMyItem);
    }
  }

  /** A schedule is accepted exactly if it meets every requirement, and else refused for the first it does not. */
  lemma ScheduleIsExact(locale: Locale, s: Schedule<IsoText>)
    ensures CheckSchedule(locale, s) == FirstFailing(ScheduleChecks(locale, s))
  {
    OrderIsExact(Stored(s));
    var order := OrderChecks(InstantOf(s.serviceWindowStartAt), InstantOf(s.serviceWindowEndAt), InstantOf(s.departureAt),
                             InstantOf(s.requestOpenAt), InstantOf(s.requestDeadline), InstantOf(s.estimatedArrivalAt),
                             s.serviceModes);
    var c := ScheduleChecks(locale, s);
    forall k | 0 <= k < 6 {
      FailingFrom(c, k);
    }
    assert c == c[0..] && c[6..] == order;
  }

  // ---------------------------------------------------------------- projections

  /** What a question must meet, in the order in which it is checked; its answer comes first. */
  function QuestionChecks(q: Question): seq<(bool, Refusal)> {
    [(ValidIso(q.createdAt), InvalidInstant)]
    + (if q.answer.None? then []
       else
         [(Labelled(q.answer.value.author) && Labelled(q.answer.value.message), LabelTooShort),
          (ValidIso(q.answer.value.createdAt), InvalidInstant),
          (InstantOf(q.createdAt) <= InstantOf(q.answer.value.createdAt), AnswerPredatesQuestion)])
    + [(Labelled(q.id) && Labelled(q.author) && Labelled(q.message), LabelTooShort)]
  }

  function AllQuestionChecks(questions: seq<Question>): seq<(bool, Refusal)> {
    if |questions| == 0 then [] else QuestionChecks(questions[0]) + AllQuestionChecks(questions[1..])
  }

  predicate TermsLabelled(terms: PublicTerms) {
    && Labelled(terms.displayName) && Labelled(terms.sellerLocationLabel)
    && Labelled(terms.deliverySummary) && Labelled(terms.rateSummary)
  }

  predicate IdsDiffer(questions: seq<Question>) {
    forall i, j :: 0 <= i < j < |questions| ==> Trim(questions[i].id) != Trim(questions[j].id)
  }

  function ProjectionChecks(locale: Locale, input: TripInput): seq<(bool, Refusal)> {
    ScheduleChecks(locale, input.schedule)
    + ([(input.remainingCapacity >= 0, NegativeCapacity)]
    + (AllQuestionChecks(input.questions)
    + [(IdsDiffer(input.questions), DuplicateQuestion), (TermsLabelled(input.terms), LabelTooShort)]))
  }

  lemma QuestionIsExact(q: Question)
    ensures CheckQuestion(q) == FirstFailing(QuestionChecks(q))
  {
    var c := QuestionChecks(q);
    forall k | 0 <= k < |c| {
      FailingFrom(c, k);
    }
    assert c == c[0..] && c[|c|..] == [];
  }

  lemma {:induction false} QuestionsAreExact(questions: seq<Question>)
    ensures CheckQuestions(questions) == FirstFailing(AllQuestionChecks(questions))
  {
    if |questions| > 0 {
      QuestionIsExact(questions[0]);
      QuestionsAreExact(questions[1..]);
      FailingAppended(QuestionChecks(questions[0]), AllQuestionChecks(questions[1..]));
    }
  }

  /** The schedule as the public sees it: labels and zones trimmed, each mode once, all else as it was. */
  predicate ShownSchedule(shown: Schedule<IsoText>, s: Schedule<IsoText>) {
    && shown.originLabel == Trim(s.originLabel) && shown.destinationLabel == Trim(s.destinationLabel)
    && shown.originTimeZone == Trim(s.originTimeZone) && shown.destinationTimeZone == Trim(s.destinationTimeZone)
    && shown.departureDate == s.departureDate && shown.departureAt == s.departureAt
    && shown.serviceWindowStartAt == s.serviceWindowStartAt && shown.serviceWindowEndAt == s.serviceWindowEndAt
    && shown.requestOpenAt == s.requestOpenAt && shown.requestDeadline == s.requestDeadline
    && shown.estimatedArrivalAt == s.estimatedArrivalAt
    && ModesOnce(shown.serviceModes, s.serviceModes)
  }

  /** The same modes, the first one first, none twice. */
  predicate ModesOnce(once: seq<ServiceMode>, modes: seq<ServiceMode>) {
    && (ShopForMe in once <==> ShopForMe in modes) && (CarryMyItem in once <==> CarryMyItem in modes)
    && |once| == (if ShopForMe in modes then 1 else 0) + (if CarryMyItem in modes then 1 else 0)
    && (|modes| > 0 ==> |once| > 0 && once[0] == modes[0])
  }

  lemma {:induction false} FirstModeFirst(modes: seq<ServiceMode>)
    ensures |modes| > 0 ==> |Distinct(modes)| > 0 && Distinct(modes)[0] == modes[0]
  {
    if |modes| > 1 {
      FirstModeFirst(modes[..|modes| - 1]);
    }
  }

  lemma OnlyTwoModes(a: ServiceMode, b: ServiceMode, c: ServiceMode)
    ensures a == b || b == c || a == c
  {
  }

  lemma DistinctOnce(modes: seq<ServiceMode>)
    ensures ModesOnce(Distinct(modes), modes)
  {
    var once := Distinct(modes);
    FirstModeFirst(modes);
    if |once| > 2 {
      OnlyTwoModes(once[0], once[1], once[2]);
    }
    if |once| == 2 {
      assert once[0] != once[1];
      assert once[0] in modes && once[1] in modes;
    } else if |once| == 1 {
      assert forall m :: m in once <==> m == once[0];
    }
  }

  predicate ShownTerms(shown: PublicTerms, terms: PublicTerms) {
    && shown.displayName == Trim(terms.displayName) && shown.sellerLocationLabel == Trim(terms.sellerLocationLabel)
    && shown.deliverySummary == Trim(terms.deliverySummary) && shown.rateSummary == Trim(terms.rateSummary)
  }

  predicate ShownQuestion(shown: Question, q: Question) {
    && shown.id == Trim(q.id) && shown.author == Trim(q.author) && shown.message == Trim(q.message)
    && shown.createdAt == q.createdAt && (shown.answer.Some? <==> q.answer.Some?)
    && (q.answer.Some? ==>
          && shown.answer.value.author == Trim(q.answer.value.author)
          && shown.answer.value.message == Trim(q.answer.value.message)
          && shown.answer.value.createdAt == q.answer.value.createdAt)
  }

  lemma TrimmedIsShown(q: Question)
    ensures ShownQuestion(TrimQuestion(q), q)
  {
  }

  /**
   A projection is refused for the first requirement it does not meet; else it is shown with its
   identifier and capacity as they are, its texts trimmed, and its questions, each trimmed too,
   sorted by time.
   */
  lemma ProjectionIsExact(locale: Locale, input: TripInput) returns (trimmed: seq<Question>)
    ensures CreatePublishedTrip(locale, input).Ok? <==> FirstFailing(ProjectionChecks(locale, input)).None?
    ensures CreatePublishedTrip(locale, input).Err? ==>
              FirstFailing(ProjectionChecks(locale, input)) == Some(CreatePublishedTrip(locale, input).error)
    ensures |trimmed| == |input.questions|
    ensures forall i :: 0 <= i < |trimmed| ==> ShownQuestion(trimmed[i], input.questions[i])
    ensures CreatePublishedTrip(locale, input).Ok? ==>
              var shown := CreatePublishedTrip(locale, input).value;
              && shown.id == input.id && shown.remainingCapacity == input.remainingCapacity
              && ShownSchedule(shown.schedule, input.schedule) && ShownTerms(shown.terms, input.terms)
              && multiset(shown.questions) == multiset(trimmed) && OrderedByTime(shown.questions)
              && forall time :: At(shown.questions, time) == At(trimmed, time)
  {
    trimmed := TrimQuestions(input.questions);
    forall i | 0 <= i < |trimmed|
      ensures ShownQuestion(trimmed[i], input.questions[i])
    {
      TrimmedIsShown(input.questions[i]);
    }
    ChecksAreExact(locale, input);
    if CreatePublishedTrip(locale, input).Ok? {
      ShownIsTrimmed(locale, input);
      SortIsExact(trimmed);
    }
  }

  lemma SortIsExact(questions: seq<Question>)
    ensures multiset(SortByTime(questions)) == multiset(questions) && OrderedByTime(SortByTime(questions))
    ensures forall time :: At(SortByTime(questions), time) == At(questions, time)
  {
    SortByTimePermutes(questions);
    SortByTimeOrders(questions);
    forall time
      ensures At(SortByTime(questions), time) == At(questions, time)
    {
      SortByTimeStable(questions, time);
    }
  }

  lemma ShownIsTrimmed(locale: Locale, input: TripInput)
    requires CreatePublishedTrip(locale, input).Ok?
    ensures var shown := CreatePublishedTrip(locale, input).value;
            && shown.id == input.id && shown.remainingCapacity == input.remainingCapacity
            && ShownSchedule(shown.schedule, input.schedule) && ShownTerms(shown.terms, input.terms)
            && shown.questions == SortByTime(TrimQuestions(input.questions))
  {
    DistinctOnce(input.schedule.serviceModes);
  }

  lemma SameIds(questions: seq<Question>)
    ensures UniqueIds(TrimQuestions(questions)) <==> IdsDiffer(questions)
  {
    var trimmed := TrimQuestions(questions);
    forall i | 0 <= i < |trimmed|
      ensures trimmed[i].id == Trim(questions[i].id)
    {
      TrimmedIsShown(questions[i]);
    }
  }

  lemma ChecksAreExact(locale: Locale, input: TripInput)
    ensures FirstFailing(ProjectionChecks(locale, input))
         == if CreatePublishedTrip(locale, input).Err? then Some(CreatePublishedTrip(locale, input).error) else None
  {
    ScheduleIsExact(locale, input.schedule);
    QuestionsAreExact(input.questions);
    SameIds(input.questions);
    Chained(ScheduleChecks(locale, input.schedule), (input.remainingCapacity >= 0, NegativeCapacity),
            AllQuestionChecks(input.questions), (IdsDiffer(input.questions), DuplicateQuestion),
            (TermsLabelled(input.terms), LabelTooShort));
  }

  lemma Chained(
      first: seq<(bool, Refusal)>, second: (bool, Refusal), third: seq<(bool, Refusal)>, fourth: (bool, Refusal),
      fifth: (bool, Refusal))
    ensures FirstFailing(first + ([second] + (third + [fourth, fifth])))
         == if FirstFailing(first).Some? then FirstFailing(first)
            else if !second.0 then Some(second.1)
            else if FirstFailing(third).Some? then FirstFailing(third)
            else if !fourth.0 then Some(fourth.1)
            else if !fifth.0 then Some(fifth.1)
            else None
  {
    FailingAppended(first, [second] + (third + [fourth, fifth]));
    FailingAppended([second], third + [fourth, fifth]);
    FailingAppended(third, [fourth, fifth]);
    assert [fourth, fifth][1..] == [fifth] && [second][1..] == [];
    assert FirstFailing([fifth]) == if !fifth.0 then Some(fifth.1) else None;
  }

  // ---------------------------------------------------------------- drafts

  /** Each instant is the one its text names; labels and zones are kept as they were sent. */
  predicate KeptSchedule(stored: Schedule<int>, s: Schedule<IsoText>) {
    && stored.originLabel == s.originLabel && stored.destinationLabel == s.destinationLabel
    && stored.originTimeZone == s.originTimeZone && stored.destinationTimeZone == s.destinationTimeZone
    && stored.departureDate == s.departureDate && stored.departureAt == InstantOf(s.departureAt)
    && stored.serviceWindowStartAt == InstantOf(s.serviceWindowStartAt)
    && stored.serviceWindowEndAt == InstantOf(s.serviceWindowEndAt)
    && stored.requestOpenAt == InstantOf(s.requestOpenAt) && stored.requestDeadline == InstantOf(s.requestDeadline)
    && stored.estimatedArrivalAt == InstantOf(s.estimatedArrivalAt)
    && ModesOnce(stored.serviceModes, s.serviceModes)
  }

  function DraftChecks(locale: Locale, schedule: Schedule<IsoText>, capacity: int, terms: PublicTerms)
    : seq<(bool, Refusal)>
  {
    ScheduleChecks(locale, schedule)
    + [(capacity >= 0, NegativeCapacity), (TermsLabelled(terms), LabelTooShort)]
  }

  /** A draft is accepted exactly if it meets every requirement; it is version one, not published, with no reason. */
  lemma DraftIsExact(
      locale: Locale, id: Text, owner: nat, profile: nat, schedule: Schedule<IsoText>, capacity: int, terms: PublicTerms)
    ensures var r := CreateOffer(locale, id, owner, profile, schedule, capacity, terms);
            && FirstFailing(DraftChecks(locale, schedule, capacity, terms)) == (if r.Err? then Some(r.error) else None)
            && (r.Ok? ==>
                  && r.value.id == id && r.value.owner == owner && r.value.profile == profile
                  && KeptSchedule(r.value.schedule, schedule) && r.value.remainingCapacity == capacity
                  && r.value.status == Draft && r.value.version == 1
                  && r.value.moderationReason == None && r.value.publishedAt == None)
  {
    var input := ProjectionInput(id, schedule, capacity, terms);
    var c, t := (capacity >= 0, NegativeCapacity), (TermsLabelled(terms), LabelTooShort);
    var d := (IdsDiffer([]), DuplicateQuestion);
    ChecksAreExact(locale, input);
    DistinctOnce(schedule.serviceModes);
    Chained(ScheduleChecks(locale, schedule), c, [], d, t);
    assert AllQuestionChecks([]) == [];
    FailingAppended(ScheduleChecks(locale, schedule), [c, t]);
    assert [c, t][1..] == [t] && FirstFailing([t]) == if !t.0 then Some(t.1) else None;
  }

  // ---------------------------------------------------------------- a trip's life

  lemma {:induction false} RunAppends(s: State, actions: seq<Action>, more: seq<Action>)
    ensures Run(s, actions + more) == Run(Run(s, actions), more)
    decreases |actions|
  {
    if |actions| == 0 {
      assert actions + more == more;
    } else {
      RunAppends(Apply(s, actions[0]), actions[1..], more);
      assert (actions + more)[1..] == actions[1..] + more;
    }
  }

  /** A decision a moderator can make: a rejection needs a reason of 2 to 500 characters. */
  predicate Decision(a: Action) {
    a.Approve? || (a.Reject? && 2 <= |Trim(a.reason)| <= 500)
  }

  /** What an action leaves of a trip that it finds in a given state. */
  predicate Moves(a: Action, was: Offer, o: Offer, now: int) {
    match was.status
    case Draft =>
      if a.Submit? then o == was.(status := PendingModeration, version := was.version + 1) else o == was
    case PendingModeration =>
      if a.Approve? then o == was.(status := Published, publishedAt := Some(now), version := was.version + 1)
      else if Decision(a) then
        o == was.(status := Rejected, moderationReason := Some(Trim(a.reason)), version := was.version + 1)
      else o == was
    case Published =>
      if a.Reserve? && a.units <= was.remainingCapacity
      then o == was.(remainingCapacity := was.remainingCapacity - a.units, version := was.version + 1)
      else o == was
    case _ => o == was
  }

  lemma StepMoves(s: State, a: Action)
    ensures Moves(a, s.offer, Apply(s, a).offer, s.clock)
  {
  }

  /** Until it is submitted a draft stays as it is; a submitted one until it is decided; a rejected one for ever. */
  lemma {:induction false} StaysAsItIs(s: State, actions: seq<Action>)
    requires || (s.offer.status == Draft && forall a <- actions :: !a.Submit?)
             || (s.offer.status == PendingModeration && forall a <- actions :: !Decision(a))
             || s.offer.status == Rejected
    ensures Run(s, actions).offer == s.offer
    decreases |actions|
  {
    if |actions| > 0 {
      assert actions[0] in actions && forall a <- actions[1..] :: a in actions;
      StepMoves(s, actions[0]);
      StaysAsItIs(Apply(s, actions[0]), actions[1..]);
    }
  }

  /** Capacity taken from a trip by requests that find room. */
  function Taken(actions: seq<Action>, remaining: int): (int, nat) {
    if |actions| == 0 then (0, 0)
    else if actions[0].Reserve? && actions[0].units <= remaining then
      var rest := Taken(actions[1..], remaining - actions[0].units);
      (actions[0].units + rest.0, 1 + rest.1)
    else Taken(actions[1..], remaining)
  }

  /** A published trip stays published, and loses nothing but the capacity that is taken. */
  lemma {:induction false} PublishedLoses(s: State, actions: seq<Action>)
    requires s.offer.status == Published
    ensures var taken := Taken(actions, s.offer.remainingCapacity);
            Run(s, actions).offer
            == s.offer.(remainingCapacity := s.offer.remainingCapacity - taken.0, version := s.offer.version + taken.1)
    decreases |actions|
  {
    if |actions| > 0 {
      StepMoves(s, actions[0]);
      PublishedLoses(Apply(s, actions[0]), actions[1..]);
    }
  }

  /** The first submission is at `i`; the first decision after it, if any, at `j`. */
  predicate Submitted(actions: seq<Action>, i: nat, j: nat) {
    && i < j <= |actions| && actions[i].Submit?
    && (forall k :: 0 <= k < i ==> !actions[k].Submit?)
    && (forall k :: i < k < j ==> !Decision(actions[k]))
    && (j < |actions| ==> Decision(actions[j]))
  }

  /**
   The life of a trip over any run: it is a draft until it is first submitted, then pending until
   the first decision, and that decision is final. It was published at the time of its approval,
   or was rejected with the trimmed reason and is never published; only a published trip has its
   capacity taken.
   */
  lemma LifeOfTrip(s: State, actions: seq<Action>, i: nat, j: nat)
    requires s.offer.status == Draft
    ensures (forall a <- actions :: !a.Submit?) ==> Run(s, actions).offer == s.offer
    ensures Submitted(actions, i, j) && j == |actions| ==>
              Run(s, actions).offer == s.offer.(status := PendingModeration, version := s.offer.version + 1)
    ensures Submitted(actions, i, j) && j < |actions| && actions[j].Reject? ==>
              Run(s, actions).offer
              == s.offer.(status := Rejected, moderationReason := Some(Trim(actions[j].reason)),
                          version := s.offer.version + 2)
    ensures Submitted(actions, i, j) && j < |actions| && actions[j].Approve? ==>
              var taken := Taken(actions[j + 1..], s.offer.remainingCapacity);
              Run(s, actions).offer
              == s.offer.(status := Published, publishedAt := Some(Run(s, actions[..j]).clock),
                          remainingCapacity := s.offer.remainingCapacity - taken.0,
                          version := s.offer.version + 2 + taken.1)
  {
    if forall a <- actions :: !a.Submit? {
      StaysAsItIs(s, actions);
    }
    if Submitted(actions, i, j) {
      var pending := PendingBy(s, actions, i, j);
      if j < |actions| {
        assert actions == actions[..j] + actions[j..];
        RunAppends(s, actions[..j], actions[j..]);
        var decided := Apply(pending, actions[j]);
        StepMoves(pending, actions[j]);
        assert Run(pending, actions[j..]) == Run(decided, actions[j + 1..]);
        if actions[j].Reject? {
          StaysAsItIs(decided, actions[j + 1..]);
        } else {
          PublishedLoses(decided, actions[j + 1..]);
        }
      } else {
        assert actions[..j] == actions;
      }
    }
  }

  lemma PendingBy(s: State, actions: seq<Action>, i: nat, j: nat) returns (pending: State)
    requires s.offer.status == Draft && Submitted(actions, i, j)
    ensures pending == Run(s, actions[..j])
    ensures pending.offer == s.offer.(status := PendingModeration, version := s.offer.version + 1)
  {
    pending := Run(s, actions[..j]);
    var before := Run(s, actions[..i]);
    StaysAsItIs(s, actions[..i]);
    assert actions[..j] == actions[..i] + actions[i..j];
    RunAppends(s, actions[..i], actions[i..j]);
    StepMoves(before, actions[i]);
    assert actions[i..j][1..] == actions[i + 1..j];
    StaysAsItIs(Apply(before, actions[i]), actions[i + 1..j]);
  }

  /** Time passes as it is told to, and stops at the end of the years that can be written. */
  lemma TimePasses(s: State, elapsed: nat)
    ensures var t := Apply(s, Tick(elapsed));
            && t == s.(clock := t.clock)
            && (t.clock == s.clock + elapsed || !ValidIso(Render(s.clock + elapsed)))
  {
  }

  // ---------------------------------------------------------------- questions

  /** A question is taken under these conditions and no others. */
  predicate MayAsk(s: State, id: Text, author: Text, message: Text) {
    && s.offer.status == Published
    && 2 <= |Trim(author)| <= 120 && 5 <= |Trim(message)| <= 500
    && |id| >= 2 && Trim(id) == id && forall i :: 0 <= i < |s.questions| ==> s.questions[i].id != id
  }

  /** A question is added with its texts trimmed, at this time, visible and unanswered; or nothing happens. */
  lemma AskIsExact(s: State, id: Text, author: Text, message: Text)
    ensures var t := Apply(s, Ask(id, author, message));
            && t == s.(questions := t.questions)
            && |t.questions| == |s.questions| + (if MayAsk(s, id, author, message) then 1 else 0)
            && (forall i :: 0 <= i < |s.questions| ==> t.questions[i] == s.questions[i])
            && (MayAsk(s, id, author, message) ==>
                  var q := t.questions[|s.questions|];
                  && q.id == id && q.author == Trim(author) && q.message == Trim(message)
                  && q.createdAt == s.clock && q.visible && q.answer.None?)
  {
    if MayAsk(s, id, author, message) {
      assert forall q <- s.questions :: q.id != id;
    } else if exists q <- s.questions :: q.id == id {
    } else {
      assert forall i :: 0 <= i < |s.questions| ==> s.questions[i] in s.questions;
    }
  }

  predicate MayReply(s: State, i: nat, message: Text) {
    && s.offer.status == Published && 5 <= |Trim(message)| <= 500
    && i < |s.questions| && s.questions[i].visible && s.questions[i].answer.None?
  }

  /** The first answer to a visible question is kept, under the seller's name; others do nothing. */
  lemma ReplyIsExact(s: State, i: nat, message: Text)
    ensures var t := Apply(s, Reply(i, message));
            if MayReply(s, i, message) then
              && t == s.(questions := t.questions) && |t.questions| == |s.questions|
              && (forall k :: 0 <= k < |s.questions| && k != i ==> t.questions[k] == s.questions[k])
              && t.questions[i] == s.questions[i].(answer := t.questions[i].answer)
              && t.questions[i].answer.Some?
              && var a := t.questions[i].answer.value;
                 a.author == s.terms.displayName && a.message == Trim(message) && a.createdAt == s.clock && a.visible
            else t == s
  {
  }

  /** What later steps can do to a question: answer it once, and hide it or its answer for good. */
  predicate Ages(was: StoredQuestion, q: StoredQuestion) {
    && q.id == was.id && q.author == was.author && q.message == was.message && q.createdAt == was.createdAt
    && (q.visible ==> was.visible)
    && (was.answer.Some? ==>
          && q.answer.Some? && q.answer.value.author == was.answer.value.author
          && q.answer.value.message == was.answer.value.message
          && q.answer.value.createdAt == was.answer.value.createdAt
          && (q.answer.value.visible ==> was.answer.value.visible))
  }

  lemma QuestionStep(s: State, a: Action)
    ensures |s.questions| <= |Apply(s, a).questions|
    ensures forall i :: 0 <= i < |s.questions| ==> Ages(s.questions[i], Apply(s, a).questions[i])
    ensures forall i :: 0 <= i < |s.questions| && a == HideQuestion(i) ==> !Apply(s, a).questions[i].visible
    ensures forall i :: 0 <= i < |s.questions| && a == HideAnswer(i) && s.questions[i].answer.Some? ==>
              Apply(s, a).questions[i].answer.Some? && !Apply(s, a).questions[i].answer.value.visible
    ensures forall i :: 0 <= i < |s.questions| && s.questions[i].visible && a != HideQuestion(i) ==>
              Apply(s, a).questions[i].visible
  {
  }

  /** Over any run a question keeps its text, author and time and its first answer; what is hidden stays hidden. */
  lemma {:induction false} QuestionsAreKept(s: State, actions: seq<Action>, i: nat)
    requires i < |s.questions|
    ensures i < |Run(s, actions).questions| && Ages(s.questions[i], Run(s, actions).questions[i])
    ensures HideQuestion(i) in actions ==> !Run(s, actions).questions[i].visible
    ensures HideQuestion(i) !in actions && s.questions[i].visible ==> Run(s, actions).questions[i].visible
    decreases |actions|
  {
    if |actions| > 0 {
      QuestionStep(s, actions[0]);
      QuestionsAreKept(Apply(s, actions[0]), actions[1..], i);
      assert actions == [actions[0]] + actions[1..];
    }
  }

  // ---------------------------------------------------------------- what the public sees

  /** The listed questions are the visible ones, each as often as it is stored. */
  lemma {:induction false} VisibleIsExact(questions: seq<StoredQuestion>, q: StoredQuestion)
    ensures multiset(Visible(questions))[q] == if q.visible then multiset(questions)[q] else 0
  {
    if |questions| > 0 {
      VisibleIsExact(questions[1..], q);
      assert questions == [questions[0]] + questions[1..];
    }
  }

  /** A question is shown as it is stored, with its answer exactly if that is visible. */
  lemma ReadIsExact(q: StoredQuestion)
    ensures var r := ReadQuestion(q);
            && r.id == q.id && r.author == q.author && r.message == q.message && r.createdAt == Render(q.createdAt)
            && (r.answer.Some? <==> q.answer.Some? && q.answer.value.visible)
            && (r.answer.Some? ==>
                  && r.answer.value.author == q.answer.value.author && r.answer.value.message == q.answer.value.message
                  && r.answer.value.createdAt == Render(q.answer.value.createdAt))
  {
  }

  /** A published row is projected with every instant written out, its capacity and its terms. */
  lemma PublicInput(locale: Locale, offer: Offer, terms: PublicTerms, listed: seq<StoredQuestion>)
    returns (input: TripInput)
    ensures MapPublishedTrip(locale, offer, terms, listed) == CreatePublishedTrip(locale, input)
    ensures input.id == offer.id && input.remainingCapacity == offer.remainingCapacity && input.terms == terms
    ensures |input.questions| == |listed|
    ensures forall i :: 0 <= i < |listed| ==> input.questions[i] == ReadQuestion(listed[i])
    ensures var (w, s) := (input.schedule, offer.schedule);
            && w.originLabel == s.originLabel && w.destinationLabel == s.destinationLabel
            && w.originTimeZone == s.originTimeZone && w.destinationTimeZone == s.destinationTimeZone
            && w.departureDate == s.departureDate && w.serviceModes == s.serviceModes
            && w.departureAt == Render(s.departureAt) && w.estimatedArrivalAt == Render(s.estimatedArrivalAt)
            && w.serviceWindowStartAt == Render(s.serviceWindowStartAt)
            && w.serviceWindowEndAt == Render(s.serviceWindowEndAt)
            && w.requestOpenAt == Render(s.requestOpenAt) && w.requestDeadline == Render(s.requestDeadline)
  {
    input := TripInput(offer.id, Rendered(offer.schedule), offer.remainingCapacity, terms, ReadQuestions(listed));
  }
}
