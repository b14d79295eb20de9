/**
 What a search asks for and what it lists, read off the texts: which criteria are refused and
 why, what is left of the accepted ones, which trips match them, and how they are ordered.
 */
module DiscoveryAnswers {
  import opened Wrappers
  import opened Text
  import opened KeyedSort
  import opened TripDiscovery

  // ---------------------------------------------------------------- criteria

  /** Lower-case letters, digits and dashes, 3 to 64 of them, the first no dash. */
  predicate PlainId(t: Text) {
    && 3 <= |t| <= 64 && (LowerLetter(t[0]) || Digit(t[0]))
    && forall i :: 0 <= i < |t| ==> LowerLetter(t[i]) || Digit(t[i]) || t[i] == 45
  }

  predicate LowerLetter(u: Unit) {
    97 <= u <= 122
  }

  predicate Digit(u: Unit) {
    48 <= u <= 57
  }

  lemma TripIdIff(t: Text)
    ensures IsTripId(t) <==> PlainId(t)
  {
    assert forall i :: 0 <= i < |t| ==> t[i] in t;
  }

  /** Given and not empty. */
  predicate Given(t: Option<Text>) {
    t.Some? && |t.value| > 0
  }

  predicate Counts(limit: real, n: int) {
    limit == n as real
  }

  predicate WholePage(limit: Option<real>) {
    limit.None? || exists n | 1 <= n <= 50 :: Counts(limit.value, n)
  }

  predicate DatesInOrder(platform: Platform, c: Criteria) {
    Given(c.departureFrom) && Given(c.departureTo) ==>
      platform.compare(c.departureFrom.value, c.departureTo.value) <= 0
  }

  /** What criteria must meet, in the order in which it is checked. */
  function CriteriaChecks(platform: Platform, c: Criteria): seq<(bool, CriteriaError)> {
    [((Given(c.departureFrom) ==> platform.validDate(c.departureFrom.value))
      && (Given(c.departureTo) ==> platform.validDate(c.departureTo.value)), InvalidDate),
     (Given(c.cursor) ==> PlainId(platform.lower(Trim(c.cursor.value))), InvalidCursor),
     (c.destination.Some? ==> |Trim(c.destination.value)| <= 160, DestinationTooLong),
     (WholePage(c.limit), InvalidPageSize),
     (DatesInOrder(platform, c), DatesReversed)]
  }

  predicate Same(found: Option<Text>, given: Option<Text>) {
    if Given(given) then found == given else found == None
  }

  lemma WholePageIff(limit: real)
    ensures limit.Floor as real == limit && 1.0 <= limit <= 50.0 <==> WholePage(Some(limit))
  {
    if n :| 1 <= n <= 50 && Counts(limit, n) {
      assert limit.Floor == n;
    }
    if limit.Floor as real == limit && 1.0 <= limit <= 50.0 {
      assert 1 <= limit.Floor <= 50 && Counts(limit, limit.Floor);
    }
  }

  /** Criteria are refused for the first check that fails; empty ones ask for nothing, and pages hold twenty unless asked. */
  lemma CriteriaAreExact(platform: Platform, c: Criteria)
    ensures var r := Normalize(platform, c);
            && FirstFailing(CriteriaChecks(platform, c)) == (if r.Err? then Some(r.error) else None)
            && (r.Ok? ==>
                  && Same(r.value.destination, if c.destination.None? then None else Some(Trim(c.destination.value)))
                  && Same(r.value.departureFrom, c.departureFrom) && Same(r.value.departureTo, c.departureTo)
                  && (r.value.cursor.Some? <==> Given(c.cursor))
                  && (Given(c.cursor) ==> r.value.cursor.value == platform.lower(Trim(c.cursor.value)))
                  && r.value.limit as real == (if c.limit.None? then 20.0 else c.limit.value))
  {
    var checks := CriteriaChecks(platform, c);
    forall k | 0 <= k < 5 {
      FailingFrom(checks, k);
    }
    assert checks == checks[0..] && checks[5..] == [];
    if Given(c.cursor) {
      TripIdIff(platform.lower(Trim(c.cursor.value)));
    }
    if c.limit.Some? {
      WholePageIff(c.limit.value);
    }
  }

  // ---------------------------------------------------------------- matching

  /** `part` stands in `t` between `before` and `after`. */
  predicate Parts(t: Text, before: Text, part: Text, after: Text) {
    t == before + part + after
  }

  lemma IncludesIff(t: Text, part: Text)
    ensures Includes(t, part) <==> exists before, after :: Parts(t, before, part, after)
  {
    if i :| 0 <= i <= |t| && OccursAt(t, part, i) {
      assert t == t[..i] + t[i..i + |part|] + t[i + |part|..];
      assert Parts(t, t[..i], part, t[i + |part|..]);
    }
    if before, after :| Parts(t, before, part, after) {
      assert t[|before|..|before| + |part|] == part;
      assert OccursAt(t, part, |before|);
    }
  }

  /** The first text comes before the second by code units. */
  ghost predicate Earlier(a: Text, b: Text) {
    exists n: nat :: FirstDifference(a, b, n)
  }

  /**
   A trip matches exactly if the destination asked for stands in its destination, both in lower
   case, and its date is neither before the first date asked for nor after the last.
   */
  lemma MatchesIff(platform: Platform, c: Search, trip: Card)
    ensures Matches(platform, c, trip) <==>
              && (c.destination.Some? ==>
                    exists before, after ::
                      Parts(platform.lower(trip.destinationLabel), before, platform.lower(c.destination.value), after))
              && (c.departureFrom.Some? ==> !Earlier(trip.departureDate, c.departureFrom.value))
              && (c.departureTo.Some? ==> !Earlier(c.departureTo.value, trip.departureDate))
  {
    if c.destination.Some? {
      IncludesIff(platform.lower(trip.destinationLabel), platform.lower(c.destination.value));
    }
    if c.departureFrom.Some? {
      LessIff(trip.departureDate, c.departureFrom.value);
    }
    if c.departureTo.Some? {
      LessIff(c.departureTo.value, trip.departureDate);
    }
  }

  // ---------------------------------------------------------------- listing

  /** Earlier dates come first, and of one date the smaller identifier, as the platform collates them. */
  predicate InOrder(platform: Platform, a: Card, b: Card) {
    || platform.compare(a.departureDate, b.departureDate) < 0
    || (platform.compare(a.departureDate, b.departureDate) == 0 && platform.compare(a.id, b.id) <= 0)
  }

  /** The listing holds each matching trip once, by date and then by identifier. */
  lemma ListedInOrder(platform: Platform, c: Search, trips: seq<Card>, i: nat, j: nat)
    requires UniqueIds(trips) && Collates(platform) && i < j < |Listing(platform, c, trips)|
    ensures InOrder(platform, Listing(platform, c, trips)[i], Listing(platform, c, trips)[j])
  {
    ListingIsExact(platform, c, trips, Listing(platform, c, trips)[i]);
  }

  /** A cursor that names no listed trip finds nothing. */
  lemma {:induction false} UnknownCursor(listing: seq<Card>, id: Text, limit: nat)
    requires forall t <- listing :: t.id != id
    ensures PageAfter(listing, Some(id), limit) == []
  {
    NotFound(listing, id);
  }

  lemma {:induction false} NotFound(listing: seq<Card>, id: Text)
    requires forall t <- listing :: t.id != id
    ensures FindIndex(listing, id) == -1
  {
    if |listing| > 0 {
      NotFound(listing[1..], id);
    }
  }
}
