/**
 From an accepted draft to its public projection: after any run of submission, approval,
 reservations, questions and answers, any of them hidden, when can a published row be projected?
 The application clock never goes back and stays within the years 0000 to 9999.
 */
module TripProjection {
  import opened Wrappers
  import opened Text
  import opened Trips

  datatype StoredAnswer = StoredAnswer(author: Text, message: Text, createdAt: int, visible: bool)

  datatype StoredQuestion = StoredQuestion(
    id: Text, author: Text, message: Text, createdAt: int, answer: Option<StoredAnswer>, visible: bool)

  datatype State = State(offer: Offer, terms: PublicTerms, questions: seq<StoredQuestion>, clock: int)

  datatype Action =
    | Tick(elapsed: nat)
    | Submit
    | Approve
    | Reject(reason: Text)
    | Reserve(units: nat)
    | Ask(id: Text, author: Text, message: Text)
    | Reply(question: nat, message: Text)
    | HideQuestion(question: nat)
    | HideAnswer(question: nat)

  /** Trimmed text within length bounds, or nothing. */
  function Bounded(t: Text, minimum: nat, maximum: nat): Option<Text> {
    if minimum <= |Trim(t)| <= maximum then Some(Trim(t)) else None
  }

  predicate InRange(instant: int) {
    YEAR_0000 <= instant < YEAR_10000
  }

  function Saved(s: State, outcome: Result<Offer, Conflict>): State {
    if outcome.Ok? then s.(offer := outcome.value) else s
  }

  /** A question is stored for a published trip under a fresh identifier that needs no trimming. */
  function ApplyAsk(s: State, id: Text, author: Text, message: Text): State {
    var name, text := Bounded(author, 2, 120), Bounded(message, 5, 500);
    if s.offer.status != Published || name.None? || text.None?
       || |id| < 2 || Trim(id) != id || (exists q <- s.questions :: q.id == id) then s
    else s.(questions := s.questions + [StoredQuestion(id, name.value, text.value, s.clock, None, true)])
  }

  function ApplyReply(s: State, question: nat, message: Text): State {
    var text := Bounded(message, 5, 500);
    if s.offer.status != Published || text.None?
       || question >= |s.questions| || !s.questions[question].visible || s.questions[question].answer.Some? then s
    else
      var answer := StoredAnswer(s.terms.displayName, text.value, s.clock, true);
      s.(questions := s.questions[question := s.questions[question].(answer := Some(answer))])
  }

  function ApplyHideQuestion(s: State, question: nat): State {
    if question >= |s.questions| then s
    else s.(questions := s.questions[question := s.questions[question].(visible := false)])
  }

  function ApplyHideAnswer(s: State, question: nat): State {
    if question >= |s.questions| || s.questions[question].answer.None? then s
    else
      var q := s.questions[question];
      s.(questions := s.questions[question := q.(answer := Some(q.answer.value.(visible := false)))])
  }

  function Apply(s: State, a: Action): State {
    match a
    case Tick(elapsed) => if InRange(s.clock + elapsed) then s.(clock := s.clock + elapsed) else s
    case Submit => Saved(s, SubmitOffer(s.offer))
    case Approve => Saved(s, ApproveOffer(s.offer, s.clock))
    case Reject(reason) => Saved(s, RejectOffer(s.offer, reason))
    case Reserve(units) =>
      if s.offer.status != Published || units > s.offer.remainingCapacity then s
      else s.(offer := s.offer.(remainingCapacity := s.offer.remainingCapacity - units, version := s.offer.version + 1))
    case Ask(id, author, message) => ApplyAsk(s, id, author, message)
    case Reply(question, message) => ApplyReply(s, question, message)
    case HideQuestion(question) => ApplyHideQuestion(s, question)
    case HideAnswer(question) => ApplyHideAnswer(s, question)
  }

  function Run(s: State, actions: seq<Action>): State
    decreases |actions|
  {
    if |actions| == 0 then s else Run(Apply(s, actions[0]), actions[1..])
  }

  // ---------------------------------------------------------------- projection

  function ReadQuestion(q: StoredQuestion): Question {
    Question(q.id, q.author, q.message, Render(q.createdAt),
             if q.answer.None? || !q.answer.value.visible then None
             else Some(Answer(q.answer.value.author, q.answer.value.message, Render(q.answer.value.createdAt))))
  }

  function ReadQuestions(questions: seq<StoredQuestion>): (r: seq<Question>)
    ensures |r| == |questions|
    ensures forall i :: 0 <= i < |r| ==> r[i] == ReadQuestion(questions[i])
  {
    seq(|questions|, i requires 0 <= i < |questions| => ReadQuestion(questions[i]))
  }

  function Visible(questions: seq<StoredQuestion>): seq<StoredQuestion> {
    if |questions| == 0 then []
    else (if questions[0].visible then [questions[0]] else []) + Visible(questions[1..])
  }

  /** `mapPublishedTrip` of the row, with its visible questions listed in some order. */
  function MapPublishedTrip(locale: Locale, offer: Offer, terms: PublicTerms, listed: seq<StoredQuestion>)
    : Result<TripInput, Refusal>
  {
    CreatePublishedTrip(locale,
      TripInput(offer.id, Rendered(offer.schedule), offer.remainingCapacity, terms, ReadQuestions(listed)))
  }

  // ---------------------------------------------------------------- invariant

  /** Everything the projection checks about a schedule, except that its instants can be written out. */
  predicate Sound(locale: Locale, s: Schedule<int>) {
    && LabelOk(s.originLabel) && LabelOk(s.destinationLabel)
    && locale.lower(Trim(s.originLabel)) != locale.lower(Trim(s.destinationLabel))
    && locale.validDate(s.departureDate)
    && locale.knownZone(Trim(s.originTimeZone)) && locale.knownZone(Trim(s.destinationTimeZone))
    && locale.localDate(s.departureAt, Trim(s.originTimeZone)) == s.departureDate
    && CheckOrder(s).None?
  }

  predicate QuestionSound(q: StoredQuestion, clock: int) {
    && LabelOk(q.id) && Trim(q.id) == q.id && LabelOk(q.author) && LabelOk(q.message)
    && YEAR_0000 <= q.createdAt <= clock
    && (q.answer.Some? ==>
          && LabelOk(q.answer.value.author) && LabelOk(q.answer.value.message)
          && q.createdAt <= q.answer.value.createdAt <= clock)
  }

  predicate StoredUnique(questions: seq<StoredQuestion>) {
    forall i, j :: 0 <= i < j < |questions| ==> questions[i].id != questions[j].id
  }

  ghost predicate Inv(locale: Locale, s: State) {
    && Sound(locale, s.offer.schedule)
    && s.offer.remainingCapacity >= 0
    && TermsOk(s.terms)
    && InRange(s.clock)
    && (forall q <- s.questions :: QuestionSound(q, s.clock))
    && StoredUnique(s.questions)
  }

  lemma TrimTwice(t: Text)
    ensures Trim(Trim(t)) == Trim(t)
  {
  }

  lemma {:induction false} DistinctEmpty(modes: seq<ServiceMode>)
    ensures |Distinct(modes)| == 0 <==> |modes| == 0
    ensures |Distinct(Distinct(modes))| == 0 <==> |Distinct(modes)| == 0
  {
    var d := Distinct(modes);
    assert |modes| > 0 ==> modes[0] in d;
    assert |d| > 0 ==> d[0] in modes && d[0] in Distinct(d);
  }

  /** An accepted draft is sound and has the terms the projection asks for. */
  lemma AcceptedDraftSound(
      locale: Locale, id: Text, owner: nat, profile: nat, schedule: Schedule<IsoText>, capacity: int, terms: PublicTerms)
    requires CreateOffer(locale, id, owner, profile, schedule, capacity, terms).Ok?
    ensures var offer := CreateOffer(locale, id, owner, profile, schedule, capacity, terms).value;
            Sound(locale, offer.schedule) && offer.remainingCapacity >= 0 && TermsOk(terms)
  {
    DistinctEmpty(schedule.serviceModes);
    var stored := Stored(schedule);
    assert CheckOrder(stored).None?;
  }

  lemma AskKeeps(locale: Locale, s: State, id: Text, author: Text, message: Text)
    requires Inv(locale, s)
    ensures Inv(locale, ApplyAsk(s, id, author, message))
  {
    TrimTwice(author);
    TrimTwice(message);
    var t := ApplyAsk(s, id, author, message);
    forall q | q in t.questions
      ensures QuestionSound(q, t.clock)
    {
      assert q in s.questions || q == t.questions[|t.questions| - 1];
    }
    forall i, j | 0 <= i < j < |t.questions|
      ensures t.questions[i].id != t.questions[j].id
    {
      if j == |s.questions| {
        assert t.questions[i] in s.questions;
      }
    }
  }

  lemma ReplyKeeps(locale: Locale, s: State, question: nat, message: Text)
    requires Inv(locale, s)
    ensures Inv(locale, ApplyReply(s, question, message))
  {
    TrimTwice(message);
    if ApplyReply(s, question, message) != s {
      assert s.questions[question] in s.questions;
      ReplaceKeeps(locale, s, question, ApplyReply(s, question, message).questions[question]);
    }
  }

  /** Replacing a question by one as sound, under the same identifier. */
  lemma ReplaceKeeps(locale: Locale, s: State, i: nat, q: StoredQuestion)
    requires Inv(locale, s) && i < |s.questions| && q.id == s.questions[i].id && QuestionSound(q, s.clock)
    ensures Inv(locale, s.(questions := s.questions[i := q]))
  {
    var t := s.(questions := s.questions[i := q]);
    forall r | r in t.questions
      ensures QuestionSound(r, t.clock)
    {
      var j :| 0 <= j < |t.questions| && t.questions[j] == r;
      assert s.questions[j] in s.questions;
    }
    forall j, k | 0 <= j < k < |t.questions|
      ensures t.questions[j].id != t.questions[k].id
    {
      assert t.questions[j].id == s.questions[j].id && t.questions[k].id == s.questions[k].id;
    }
  }

  lemma HideKeeps(locale: Locale, s: State, i: nat)
    requires Inv(locale, s)
    ensures Inv(locale, ApplyHideQuestion(s, i)) && Inv(locale, ApplyHideAnswer(s, i))
  {
    if i < |s.questions| {
      var q := s.questions[i];
      assert q in s.questions;
      ReplaceKeeps(locale, s, i, q.(visible := false));
      if q.answer.Some? {
        ReplaceKeeps(locale, s, i, q.(answer := Some(q.answer.value.(visible := false))));
      }
    }
  }

  lemma InvStep(locale: Locale, s: State, a: Action)
    requires Inv(locale, s)
    ensures Inv(locale, Apply(s, a))
  {
    match a
    case Ask(id, author, message) => AskKeeps(locale, s, id, author, message);
    case Reply(question, message) => ReplyKeeps(locale, s, question, message);
    case HideQuestion(question) => HideKeeps(locale, s, question);
    case HideAnswer(question) => HideKeeps(locale, s, question);
    case _ => OfferStepKeeps(locale, s, a);
  }

  lemma OfferStepKeeps(locale: Locale, s: State, a: Action)
    requires Inv(locale, s) && !a.Ask? && !a.Reply? && !a.HideQuestion? && !a.HideAnswer?
    ensures Inv(locale, Apply(s, a))
  {
    assert Apply(s, a).questions == s.questions;
  }

  lemma {:induction false} InvRun(locale: Locale, s: State, actions: seq<Action>)
    requires Inv(locale, s)
    ensures Inv(locale, Run(s, actions))
    decreases |actions|
  {
    if |actions| > 0 {
      InvStep(locale, s, actions[0]);
      InvRun(locale, Apply(s, actions[0]), actions[1..]);
    }
  }

  // ---------------------------------------------------------------- totality

  lemma RenderedSchedule(locale: Locale, s: Schedule<int>)
    requires Sound(locale, s)
    ensures CheckSchedule(locale, Rendered(s)).None? <==> AllInstants(s, InRange)
    ensures CheckSchedule(locale, Rendered(s)).Some? ==> CheckSchedule(locale, Rendered(s)).value == InvalidInstant
  {
    assert AllInstants(s, InRange) ==> Stored(Rendered(s)) == s;
    assert AllInstants(Rendered(s), ValidIso) <==> AllInstants(s, InRange);
  }

  lemma {:induction false} QuestionsAccepted(listed: seq<StoredQuestion>, clock: int)
    requires InRange(clock) && forall q <- listed :: QuestionSound(q, clock)
    ensures CheckQuestions(ReadQuestions(listed)).None?
  {
    if |listed| > 0 {
      assert QuestionSound(listed[0], clock);
      QuestionsAccepted(listed[1..], clock);
      assert ReadQuestions(listed)[1..] == ReadQuestions(listed[1..]);
    }
  }

  lemma {:induction false} VisibleUnique(questions: seq<StoredQuestion>)
    requires StoredUnique(questions)
    ensures StoredUnique(Visible(questions))
    ensures forall q <- Visible(questions) :: q in questions
  {
    if |questions| > 0 {
      VisibleUnique(questions[1..]);
      var rest := Visible(questions[1..]);
      forall j | 0 <= j < |rest|
        ensures rest[j].id != questions[0].id
      {
        assert rest[j] in questions[1..];
      }
    }
  }

  lemma {:induction false} PermutedUnique(a: seq<StoredQuestion>, b: seq<StoredQuestion>)
    requires multiset(a) == multiset(b) && StoredUnique(a)
    ensures StoredUnique(b)
    ensures forall q <- b :: q in a
  {
    forall q | q in b
      ensures q in a
    {
      assert q in multiset(b) && q in multiset(a);
    }
    forall i, j | 0 <= i < j < |b|
      ensures b[i].id != b[j].id
    {
      assert b[i] in a && b[j] in a;
      if b[i] == b[j] {
        assert b == b[..i] + [b[i]] + b[i + 1..j] + [b[j]] + b[j + 1..];
        assert multiset(a)[b[i]] >= 2;
        OnceWhenUnique(a, b[i]);
      }
    }
  }

  lemma {:induction false} OnceWhenUnique(a: seq<StoredQuestion>, q: StoredQuestion)
    requires StoredUnique(a)
    ensures multiset(a)[q] <= 1
  {
    if |a| > 0 {
      OnceWhenUnique(a[1..], q);
      assert a == [a[0]] + a[1..];
      if a[0] == q {
        assert q !in a[1..];
        assert q !in multiset(a[1..]);
      }
    }
  }

  lemma ListedUnique(listed: seq<StoredQuestion>, clock: int)
    requires StoredUnique(listed) && forall q <- listed :: QuestionSound(q, clock)
    ensures UniqueIds(TrimQuestions(ReadQuestions(listed)))
  {
    var trimmed := TrimQuestions(ReadQuestions(listed));
    forall i, j | 0 <= i < j < |trimmed|
      ensures trimmed[i].id != trimmed[j].id
    {
      assert QuestionSound(listed[i], clock) && QuestionSound(listed[j], clock);
    }
  }

  /**
   After any run from an accepted draft, projecting the row succeeds exactly when its six
   instants lie in the years 0000 to 9999 in UTC, whatever order its visible questions are listed
   in; otherwise it fails on the instant. When it succeeds the questions come back in time
   order, a permutation of the listed ones, entries of one time in listed order.
   */
  lemma ProjectionTotal(
      locale: Locale, id: Text, owner: nat, profile: nat, schedule: Schedule<IsoText>, capacity: int,
      terms: PublicTerms, clock: int, actions: seq<Action>, listed: seq<StoredQuestion>, time: int)
    requires CreateOffer(locale, id, owner, profile, schedule, capacity, terms).Ok?
    requires InRange(clock)
    requires var offer := CreateOffer(locale, id, owner, profile, schedule, capacity, terms).value;
             multiset(listed) == multiset(Visible(Run(State(offer, terms, [], clock), actions).questions))
    ensures var offer := CreateOffer(locale, id, owner, profile, schedule, capacity, terms).value;
            var s := Run(State(offer, terms, [], clock), actions);
            var r := MapPublishedTrip(locale, s.offer, s.terms, listed);
            && (r.Ok? <==> AllInstants(Stored(schedule), InRange))
            && (r.Err? ==> r.error == InvalidInstant)
            && (r.Ok? ==>
                  && OrderedByTime(r.value.questions)
                  && UniqueIds(TrimQuestions(ReadQuestions(listed)))
                  && multiset(r.value.questions) == multiset(TrimQuestions(ReadQuestions(listed)))
                  && At(r.value.questions, time) == At(TrimQuestions(ReadQuestions(listed)), time))
  {
    var offer := CreateOffer(locale, id, owner, profile, schedule, capacity, terms).value;
    var start := State(offer, terms, [], clock);
    AcceptedDraftSound(locale, id, owner, profile, schedule, capacity, terms);
    InvRun(locale, start, actions);
    ScheduleFixed(start, actions);
    var s := Run(start, actions);
    RenderedSchedule(locale, s.offer.schedule);
    VisibleUnique(s.questions);
    PermutedUnique(Visible(s.questions), listed);
    QuestionsAccepted(listed, s.clock);
    ListedUnique(listed, s.clock);
    var trimmed := TrimQuestions(ReadQuestions(listed));
    SortByTimeOrders(trimmed);
    SortByTimePermutes(trimmed);
    SortByTimeStable(trimmed, time);
  }

  lemma {:induction false} ScheduleFixed(s: State, actions: seq<Action>)
    ensures Run(s, actions).offer.schedule == s.offer.schedule
    ensures Run(s, actions).terms == s.terms
    decreases |actions|
  {
    if |actions| > 0 {
      ScheduleFixed(Apply(s, actions[0]), actions[1..]);
    }
  }

  // ---------------------------------------------------------------- a platform

  function Pad2(n: nat): Text
    requires n < 100
  {
    [48 + n / 10, 48 + n % 10]
  }

  function Pad4(n: nat): Text
    requires n < 10_000
  {
    Pad2(n / 100) + Pad2(n % 100)
  }

  /** The year within an era of 400, counted from 1 March. */
  function YearOfEra(dayOfEra: int): int {
    (dayOfEra - dayOfEra / 1_460 + dayOfEra / 36_524 - dayOfEra / 146_096) / 365
  }

  /** Year, month and day of a day counted from 1 January 1970, in the Gregorian calendar. */
  function Civil(day: int): (int, int, int) {
    var z := day + 719_468;
    var era, dayOfEra := z / 146_097, z % 146_097;
    var yearOfEra := YearOfEra(dayOfEra);
    var dayOfYear := dayOfEra - (365 * yearOfEra + yearOfEra / 4 - yearOfEra / 100);
    var month := (5 * dayOfYear + 2) / 153;
    var civilMonth := if month < 10 then month + 3 else month - 9;
    (yearOfEra + era * 400 + (if civilMonth <= 2 then 1 else 0), civilMonth, dayOfYear - (153 * month + 2) / 5 + 1)
  }

  /** The date as text; nothing outside the years 0 to 9999. */
  function DateText(day: int): Text {
    var (year, month, dayOfMonth) := Civil(day);
    if 0 <= year < 10_000 && 0 <= month < 100 && 0 <= dayOfMonth < 100
    then Pad4(year) + [MINUS] + Pad2(month) + [MINUS] + Pad2(dayOfMonth)
    else []
  }

  function LowerAscii(t: Text): Text {
    seq(|t|, i requires 0 <= i < |t| => if 65 <= t[i] <= 90 then t[i] + 32 else t[i])
  }

  /** Two zones of the IANA database, with their offsets from UTC in hours. */
  function OffsetOf(zone: Text): Option<int> {
    if zone == Ascii("UTC") then Some(0)
    else if zone == Ascii("Etc/GMT+12") then Some(-12)
    else None
  }

  function LocalDay(instant: int, zone: Text): int {
    var offset := OffsetOf(zone);
    (instant + (if offset.Some? then offset.value else 0) * 3_600_000) / 86_400_000
  }

  /** Dates are valid when some day of the years 0 to 9999 is written so. */
  ghost predicate IsDate(t: Text) {
    exists day :: -719_528 <= day <= 2_932_896 && DateText(day) == t
  }

  /** A platform that knows these two zones and computes local dates. */
  ghost function TwoZones(): Locale {
    Locale(LowerAscii, (zone: Text) => OffsetOf(zone).Some?, (t: Text) => IsDate(t),
           (instant: int, zone: Text) => DateText(LocalDay(instant, zone)))
  }

  // ---------------------------------------------------------------- a draft that cannot be projected

  /** What any platform says of the zone twelve hours behind UTC on the last day of the year 9999. */
  ghost predicate KnowsLastDay(locale: Locale) {
    && locale.knownZone(Ascii("Etc/GMT+12")) && locale.validDate(Ascii("9999-12-31"))
    && locale.lower(Ascii("Baker")) != locale.lower(Ascii("Howland"))
    && forall instant :: YEAR_10000 - 43_200_000 <= instant < YEAR_10000 + 43_200_000 ==>
         locale.localDate(instant, Ascii("Etc/GMT+12")) == Ascii("9999-12-31")
  }

  lemma LastCivilDay()
    ensures Civil(2_932_896) == (9_999, 12, 31)
  {
    assert 3_652_364 / 146_097 == 24 && 3_652_364 % 146_097 == 146_036;
    LastYearOfEra();
    assert 399 / 4 == 99 && 399 / 100 == 3;
    assert (5 * 305 + 2) / 153 == 9 && (153 * 9 + 2) / 5 == 275;
  }

  lemma LastYearOfEra()
    ensures YearOfEra(146_036) == 399
  {
    assert 146_036 / 1_460 == 100 && 146_036 / 36_524 == 3 && 146_036 / 146_096 == 0;
    assert 145_939 / 365 == 399;
  }

  lemma LastDayDigits()
    ensures Pad4(9_999) + [MINUS] + Pad2(12) + [MINUS] + Pad2(31) == [57, 57, 57, 57, 45, 49, 50, 45, 51, 49]
    ensures Ascii("9999-12-31") == [57, 57, 57, 57, 45, 49, 50, 45, 51, 49]
  {
  }

  lemma LastDayText()
    ensures DateText(2_932_896) == Ascii("9999-12-31")
  {
    LastCivilDay();
    LastDayDigits();
  }

  lemma TwoZonesKnowsLastDay()
    ensures KnowsLastDay(TwoZones())
  {
    LastDayText();
    assert IsDate(Ascii("9999-12-31"));
    assert LowerAscii(Ascii("Baker"))[0] == 98 && LowerAscii(Ascii("Howland"))[0] == 104;
    assert |Ascii("UTC")| == 3 && |Ascii("Etc/GMT+12")| == 10;
    forall instant | YEAR_10000 - 43_200_000 <= instant < YEAR_10000 + 43_200_000
      ensures DateText(LocalDay(instant, Ascii("Etc/GMT+12"))) == Ascii("9999-12-31")
    {
      assert LocalDay(instant, Ascii("Etc/GMT+12")) == (instant - 43_200_000) / 86_400_000 == 2_932_896;
    }
  }

  /** A wall clock in the last hour of 9999-12-31, twelve hours behind UTC. */
  function LastHour(milliseconds: int): IsoText {
    Iso(YEAR_10000 - 3_600_000 + milliseconds, -720)
  }

  function LateSchedule(): Schedule<IsoText> {
    Schedule(
      Ascii("Baker"), Ascii("Etc/GMT+12"), Ascii("Howland"), Ascii("Etc/GMT+12"),
      LastHour(0), LastHour(3_000), Ascii("9999-12-31"), LastHour(4_000),
      LastHour(1_000), LastHour(2_000), LastHour(5_000), [ShopForMe])
  }

  function PlainTerms(): PublicTerms {
    PublicTerms(Ascii("AA"), Ascii("AA"), Ascii("AA"), Ascii("AA"))
  }

  lemma PlainText(t: Text)
    requires |t| > 0 && !IsSpace(t[0]) && !IsSpace(t[|t| - 1])
    ensures Trim(t) == t
  {
  }

  lemma PlainLabels()
    ensures Trim(Ascii("Baker")) == Ascii("Baker") && Trim(Ascii("Howland")) == Ascii("Howland")
    ensures Trim(Ascii("Etc/GMT+12")) == Ascii("Etc/GMT+12") && Trim(Ascii("AA")) == Ascii("AA")
  {
    var (a, b, c, d) := (Ascii("Baker"), Ascii("Howland"), Ascii("Etc/GMT+12"), Ascii("AA"));
    assert a[0] == 66 && a[4] == 114 && b[0] == 72 && b[6] == 100;
    assert c[0] == 69 && c[9] == 50 && d[0] == 65 && d[1] == 65;
    PlainText(a);
    PlainText(b);
    PlainText(c);
    PlainText(d);
  }

  lemma LateDraftAccepted(locale: Locale)
    requires KnowsLastDay(locale)
    ensures CreateOffer(locale, Ascii("late-trip"), 0, 0, LateSchedule(), 100, PlainTerms()).Ok?
  {
    PlainLabels();
    DistinctEmpty([ShopForMe]);
    assert CheckOrder(Stored(LateSchedule())).None?;
    assert CheckSchedule(locale, LateSchedule()).None?;
    assert UniqueIds(TrimQuestions([]));
  }

  /**
   The property fails on every platform that knows the zone Etc/GMT+12: there the last day of
   the year 9999 ends in the year 10000 of UTC. A draft whose instants are in its last hour is
   accepted; submitted and approved, the trip is published and cannot be projected.
   */
  lemma UnprojectableDraft(locale: Locale, clock: int)
    requires KnowsLastDay(locale) && InRange(clock)
    ensures CreateOffer(locale, Ascii("late-trip"), 0, 0, LateSchedule(), 100, PlainTerms()).Ok?
    ensures var offer := CreateOffer(locale, Ascii("late-trip"), 0, 0, LateSchedule(), 100, PlainTerms()).value;
            var s := Run(State(offer, PlainTerms(), [], clock), [Submit, Approve]);
            && s.offer.status == Published
            && MapPublishedTrip(locale, s.offer, s.terms, []) == Err(InvalidInstant)
  {
    LateDraftAccepted(locale);
    var offer := CreateOffer(locale, Ascii("late-trip"), 0, 0, LateSchedule(), 100, PlainTerms()).value;
    var start := State(offer, PlainTerms(), [], clock);
    var actions := [Submit, Approve];
    assert actions[1..] == [Approve] && actions[1..][1..] == [];
    assert Run(start, actions) == Apply(Apply(start, Submit), Approve);
    assert Visible(Run(start, actions).questions) == [];
    ProjectionTotal(locale, Ascii("late-trip"), 0, 0, LateSchedule(), 100, PlainTerms(), clock, actions, [], 0);
    assert !InRange(Stored(LateSchedule()).departureAt);
  }
}
