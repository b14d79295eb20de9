/**
 Searching published trips page by page. The platform's case mapping, collation and calendar
 are parameters; texts compared with `>=` and `<=` are compared by code units.
 */
module TripDiscovery {
  import opened Wrappers
  import opened Text
  import KeyedSort

  /** What a search looks at in a published trip. */
  datatype Card = Card(id: Text, departureDate: Text, destinationLabel: Text)

  datatype Platform = Platform(lower: Text -> Text, compare: (Text, Text) -> int, validDate: Text -> bool)

  datatype Criteria = Criteria(
    destination: Option<Text>, departureFrom: Option<Text>, departureTo: Option<Text>,
    cursor: Option<Text>, limit: Option<real>)

  datatype Search = Search(
    destination: Option<Text>, departureFrom: Option<Text>, departureTo: Option<Text>, cursor: Option<Text>, limit: nat)

  datatype CriteriaError = InvalidDate | InvalidCursor | DestinationTooLong | InvalidPageSize | DatesReversed

  // ---------------------------------------------------------------- criteria

  /** Empty and absent texts are one. */
  function NonEmpty(t: Option<Text>): Option<Text> {
    if t.Some? && |t.value| == 0 then None else t
  }

  predicate DateOk(platform: Platform, date: Option<Text>) {
    date.Some? ==> platform.validDate(date.value)
  }

  /** `[a-z0-9][a-z0-9-]{2,63}` */
  predicate IsTripId(t: Text) {
    && 3 <= |t| <= 64 && t[0] != MINUS
    && forall u <- t :: 97 <= u <= 122 || IsDigit(u) || u == MINUS
  }

  function TripId(platform: Platform, t: Text): Option<Text> {
    var id := platform.lower(Trim(t));
    if IsTripId(id) then Some(id) else None
  }

  function Normalize(platform: Platform, c: Criteria): Result<Search, CriteriaError> {
    var destination := if c.destination.None? then None else NonEmpty(Some(Trim(c.destination.value)));
    var from, to, given := NonEmpty(c.departureFrom), NonEmpty(c.departureTo), NonEmpty(c.cursor);
    var cursor := if given.None? then None else TripId(platform, given.value);
    var limit := if c.limit.None? then 20.0 else c.limit.value;
    if !DateOk(platform, from) || !DateOk(platform, to) then Err(InvalidDate)
    else if given.Some? && cursor.None? then Err(InvalidCursor)
    else if destination.Some? && |destination.value| > 160 then Err(DestinationTooLong)
    else if limit.Floor as real != limit || limit < 1.0 || limit > 50.0 then Err(InvalidPageSize)
    else if from.Some? && to.Some? && platform.compare(from.value, to.value) > 0 then Err(DatesReversed)
    else Ok(Search(destination, from, to, cursor, limit.Floor))
  }

  // ---------------------------------------------------------------- search

  predicate OccursAt(t: Text, part: Text, i: nat) {
    i + |part| <= |t| && t[i..i + |part|] == part
  }

  predicate Includes(t: Text, part: Text) {
    exists i | 0 <= i <= |t| :: OccursAt(t, part, i)
  }

  predicate Matches(platform: Platform, c: Search, trip: Card) {
    && (c.destination.Some? ==> Includes(platform.lower(trip.destinationLabel), platform.lower(c.destination.value)))
    && (c.departureFrom.Some? ==> !KeyedSort.Less(trip.departureDate, c.departureFrom.value))
    && (c.departureTo.Some? ==> !KeyedSort.Less(c.departureTo.value, trip.departureDate))
  }

  function Filter(platform: Platform, c: Search, trips: seq<Card>): seq<Card> {
    if |trips| == 0 then []
    else (if Matches(platform, c, trips[0]) then [trips[0]] else []) + Filter(platform, c, trips[1..])
  }

  /** By departure date, then by identifier. */
  function Compare(platform: Platform, a: Card, b: Card): int {
    var byDate := platform.compare(a.departureDate, b.departureDate);
    if byDate != 0 then byDate else platform.compare(a.id, b.id)
  }

  function Insert(platform: Platform, trip: Card, sorted: seq<Card>): seq<Card> {
    if |sorted| == 0 || Compare(platform, trip, sorted[0]) <= 0 then [trip] + sorted
    else [sorted[0]] + Insert(platform, trip, sorted[1..])
  }

  /** The stable sort. */
  function Sort(platform: Platform, trips: seq<Card>): seq<Card> {
    if |trips| == 0 then [] else Insert(platform, trips[0], Sort(platform, trips[1..]))
  }

  function FindIndex(trips: seq<Card>, id: Text): (r: int)
    ensures -1 <= r < |trips|
    ensures r >= 0 ==> trips[r].id == id
  {
    if |trips| == 0 then -1
    else if trips[0].id == id then 0
    else
      var later := FindIndex(trips[1..], id);
      if later < 0 then -1 else later + 1
  }

  /** JavaScript's `slice(start, end)` of a list, for bounds that are not negative. */
  function Slice(trips: seq<Card>, start: nat, end: nat): seq<Card> {
    var from := if start > |trips| then |trips| else start;
    var to := if end > |trips| then |trips| else end;
    if from <= to then trips[from..to] else []
  }

  /** Everything that matches, in order. */
  function Listing(platform: Platform, c: Search, trips: seq<Card>): seq<Card> {
    Sort(platform, Filter(platform, c, trips))
  }

  /** The page of a listing after a cursor, or its first page. */
  function PageAfter(listing: seq<Card>, cursor: Option<Text>, limit: nat): seq<Card> {
    if cursor.None? then Slice(listing, 0, limit)
    else
      var at := FindIndex(listing, cursor.value);
      if at < 0 then [] else Slice(listing, at + 1, at + 1 + limit)
  }

  function SearchPublished(platform: Platform, c: Search, trips: seq<Card>): seq<Card> {
    PageAfter(Listing(platform, c, trips), c.cursor, c.limit)
  }

  /** What the route answers beside a page. */
  function NextCursor(page: seq<Card>, limit: nat): Option<Text> {
    if |page| == limit && |page| > 0 then Some(page[|page| - 1].id) else None
  }

  // ---------------------------------------------------------------- the order

  /** Collation is a total preorder. */
  ghost predicate Collates(platform: Platform) {
    && (forall a, b :: platform.compare(a, b) < 0 <==> platform.compare(b, a) > 0)
    && (forall a, b, c :: platform.compare(a, b) <= 0 && platform.compare(b, c) <= 0 ==> platform.compare(a, c) <= 0)
  }

  predicate Ordered(platform: Platform, trips: seq<Card>) {
    forall i, j :: 0 <= i < j < |trips| ==> Compare(platform, trips[i], trips[j]) <= 0
  }

  predicate UniqueIds(trips: seq<Card>) {
    forall i, j :: 0 <= i < j < |trips| ==> trips[i].id != trips[j].id
  }

  lemma CompareTransitive(platform: Platform, a: Card, b: Card, c: Card)
    requires Collates(platform) && Compare(platform, a, b) <= 0 && Compare(platform, b, c) <= 0
    ensures Compare(platform, a, c) <= 0
  {
    assert platform.compare(a.departureDate, b.departureDate) <= 0;
    assert platform.compare(b.departureDate, c.departureDate) <= 0;
    assert platform.compare(a.departureDate, c.departureDate) <= 0;
    if platform.compare(a.departureDate, c.departureDate) == 0 {
      assert platform.compare(c.departureDate, a.departureDate) <= 0;
      assert platform.compare(b.departureDate, a.departureDate) <= 0;
      assert platform.compare(c.departureDate, b.departureDate) <= 0;
    }
  }

  lemma {:induction false} InsertContents(platform: Platform, trip: Card, sorted: seq<Card>)
    ensures multiset(Insert(platform, trip, sorted)) == multiset(sorted) + multiset{trip}
    ensures |Insert(platform, trip, sorted)| == |sorted| + 1
    ensures forall t :: t in Insert(platform, trip, sorted) <==> t == trip || t in sorted
  {
    if |sorted| == 0 || Compare(platform, trip, sorted[0]) <= 0 {
    } else {
      InsertContents(platform, trip, sorted[1..]);
      assert sorted == [sorted[0]] + sorted[1..];
    }
  }

  lemma {:induction false} InsertOrdered(platform: Platform, trip: Card, sorted: seq<Card>)
    requires Collates(platform) && Ordered(platform, sorted)
    ensures Ordered(platform, Insert(platform, trip, sorted))
  {
    if |sorted| == 0 {
    } else if Compare(platform, trip, sorted[0]) <= 0 {
      forall j | 0 < j < |sorted|
        ensures Compare(platform, trip, sorted[j]) <= 0
      {
        CompareTransitive(platform, trip, sorted[0], sorted[j]);
      }
    } else {
      var tail := Insert(platform, trip, sorted[1..]);
      InsertOrdered(platform, trip, sorted[1..]);
      InsertContents(platform, trip, sorted[1..]);
      forall j | 0 <= j < |tail|
        ensures Compare(platform, sorted[0], tail[j]) <= 0
      {
        assert tail[j] in tail;
        assert tail[j] == trip || tail[j] in sorted[1..];
      }
    }
  }

  lemma {:induction false} InsertUnique(platform: Platform, trip: Card, sorted: seq<Card>)
    requires UniqueIds(sorted) && forall t <- sorted :: t.id != trip.id
    ensures UniqueIds(Insert(platform, trip, sorted))
  {
    if |sorted| > 0 && Compare(platform, trip, sorted[0]) > 0 {
      InsertUnique(platform, trip, sorted[1..]);
      InsertContents(platform, trip, sorted[1..]);
      var tail := Insert(platform, trip, sorted[1..]);
      forall j | 0 <= j < |tail|
        ensures sorted[0].id != tail[j].id
      {
        assert tail[j] in tail;
        assert tail[j] == trip || tail[j] in sorted[1..];
      }
    }
  }

  lemma {:induction false} SortContents(platform: Platform, trips: seq<Card>)
    ensures multiset(Sort(platform, trips)) == multiset(trips)
    ensures |Sort(platform, trips)| == |trips|
    ensures forall t :: t in Sort(platform, trips) <==> t in trips
  {
    if |trips| > 0 {
      SortContents(platform, trips[1..]);
      InsertContents(platform, trips[0], Sort(platform, trips[1..]));
      assert trips == [trips[0]] + trips[1..];
    }
  }

  lemma {:induction false} SortUnique(platform: Platform, trips: seq<Card>)
    requires UniqueIds(trips)
    ensures UniqueIds(Sort(platform, trips))
  {
    if |trips| > 0 {
      SortUnique(platform, trips[1..]);
      SortContents(platform, trips[1..]);
      InsertUnique(platform, trips[0], Sort(platform, trips[1..]));
    }
  }

  lemma {:induction false} SortOrdered(platform: Platform, trips: seq<Card>)
    requires Collates(platform)
    ensures Ordered(platform, Sort(platform, trips))
  {
    if |trips| > 0 {
      SortOrdered(platform, trips[1..]);
      InsertOrdered(platform, trips[0], Sort(platform, trips[1..]));
    }
  }

  lemma {:induction false} FilterContents(platform: Platform, c: Search, trips: seq<Card>)
    ensures forall t :: t in Filter(platform, c, trips) <==> t in trips && Matches(platform, c, t)
  {
    if |trips| > 0 {
      FilterContents(platform, c, trips[1..]);
      assert trips == [trips[0]] + trips[1..];
    }
  }

  lemma {:induction false} FilterUnique(platform: Platform, c: Search, trips: seq<Card>)
    requires UniqueIds(trips)
    ensures UniqueIds(Filter(platform, c, trips))
  {
    if |trips| > 0 {
      FilterUnique(platform, c, trips[1..]);
      FilterContents(platform, c, trips[1..]);
      var rest := Filter(platform, c, trips[1..]);
      forall j | 0 <= j < |rest|
        ensures rest[j].id != trips[0].id
      {
        assert rest[j] in trips[1..];
      }
    }
  }

  lemma ListingUnique(platform: Platform, c: Search, trips: seq<Card>)
    requires UniqueIds(trips)
    ensures UniqueIds(Listing(platform, c, trips))
  {
    FilterUnique(platform, c, trips);
    SortUnique(platform, Filter(platform, c, trips));
  }

  /** The listing is the matching trips and no others, each once, in order. */
  lemma ListingIsExact(platform: Platform, c: Search, trips: seq<Card>, trip: Card)
    requires UniqueIds(trips)
    ensures trip in Listing(platform, c, trips) <==> trip in trips && Matches(platform, c, trip)
    ensures UniqueIds(Listing(platform, c, trips))
    ensures Collates(platform) ==> Ordered(platform, Listing(platform, c, trips))
  {
    FilterContents(platform, c, trips);
    SortContents(platform, Filter(platform, c, trips));
    ListingUnique(platform, c, trips);
    if Collates(platform) {
      SortOrdered(platform, Filter(platform, c, trips));
    }
  }

  // ---------------------------------------------------------------- walking

  lemma {:induction false} FindUnique(trips: seq<Card>, k: nat)
    requires UniqueIds(trips) && k < |trips|
    ensures FindIndex(trips, trips[k].id) == k
  {
    if k > 0 {
      FindUnique(trips[1..], k - 1);
    }
  }

  function Least(a: nat, b: nat): nat {
    if a <= b then a else b
  }

  /** Where page `k` of a listing cut into pages of `limit` starts. */
  function PageStart(limit: nat, k: nat): nat {
    if k == 0 then 0 else PageStart(limit, k - 1) + limit
  }

  lemma {:induction false} PageStartIs(limit: nat, k: nat)
    ensures PageStart(limit, k) == k * limit
  {
    if k > 0 {
      PageStartIs(limit, k - 1);
      assert k * limit == (k - 1) * limit + limit;
    }
  }

  function Concatenate(pages: seq<seq<Card>>): seq<Card> {
    if |pages| == 0 then [] else Concatenate(pages[..|pages| - 1]) + pages[|pages| - 1]
  }

  /** Pages of a listing, each after the cursor given with the one before. */
  ghost predicate IsChain(listing: seq<Card>, limit: nat, pages: seq<seq<Card>>) {
    && |pages| > 0 && pages[0] == PageAfter(listing, None, limit)
    && forall i :: 0 <= i < |pages| - 1 ==> Follows(listing, limit, pages[i], pages[i + 1])
  }

  predicate Follows(listing: seq<Card>, limit: nat, page: seq<Card>, next: seq<Card>) {
    NextCursor(page, limit).Some? && next == PageAfter(listing, NextCursor(page, limit), limit)
  }

  predicate IsPage(listing: seq<Card>, limit: nat, k: nat, page: seq<Card>) {
    var start := PageStart(limit, k);
    start <= |listing| && page == Slice(listing, start, start + limit)
  }

  /** A page has a next cursor exactly when it is full, and the cursor finds the page after it. */
  lemma NextSlice(listing: seq<Card>, limit: nat, start: nat)
    requires UniqueIds(listing) && limit > 0
    ensures var page := Slice(listing, start, start + limit);
            && (NextCursor(page, limit).Some? <==> start + limit <= |listing|)
            && (start + limit <= |listing| ==>
                  PageAfter(listing, NextCursor(page, limit), limit)
                  == Slice(listing, start + limit, start + limit + limit))
  {
    if start + limit <= |listing| {
      FindUnique(listing, start + limit - 1);
    }
  }

  lemma PageFollows(listing: seq<Card>, limit: nat, k: nat, page: seq<Card>, next: seq<Card>)
    requires UniqueIds(listing) && limit > 0
    requires IsPage(listing, limit, k, page) && Follows(listing, limit, page, next)
    ensures IsPage(listing, limit, k + 1, next)
  {
    NextSlice(listing, limit, PageStart(limit, k));
  }

  lemma {:induction false} ChainPages(listing: seq<Card>, limit: nat, pages: seq<seq<Card>>, k: nat)
    requires UniqueIds(listing) && limit > 0 && IsChain(listing, limit, pages) && k < |pages|
    ensures IsPage(listing, limit, k, pages[k])
  {
    if k > 0 {
      ChainPages(listing, limit, pages, k - 1);
      assert Follows(listing, limit, pages[k - 1], pages[k - 1 + 1]);
      PageFollows(listing, limit, k - 1, pages[k - 1], pages[k]);
    }
  }

  lemma SliceAppends(listing: seq<Card>, start: nat, limit: nat)
    requires start <= |listing|
    ensures listing[..start] + Slice(listing, start, start + limit) == listing[..Least(start + limit, |listing|)]
  {
  }

  lemma AppendPage(listing: seq<Card>, limit: nat, n: nat, page: seq<Card>)
    requires IsPage(listing, limit, n, page)
    ensures listing[..Least(PageStart(limit, n), |listing|)] + page
         == listing[..Least(PageStart(limit, n + 1), |listing|)]
  {
    SliceAppends(listing, PageStart(limit, n), limit);
  }

  lemma {:induction false} PagesConcatenate(listing: seq<Card>, limit: nat, pages: seq<seq<Card>>)
    requires forall k :: 0 <= k < |pages| ==> IsPage(listing, limit, k, pages[k])
    ensures Concatenate(pages) == listing[..Least(PageStart(limit, |pages|), |listing|)]
  {
    if |pages| > 0 {
      PagesConcatenate(listing, limit, pages[..|pages| - 1]);
      AppendPage(listing, limit, |pages| - 1, pages[|pages| - 1]);
    }
  }

  /** Whole pages in a listing. */
  lemma WholePages(n: nat, limit: nat, k: nat)
    requires limit > 0
    ensures k * limit <= n <==> k <= n / limit
  {
    var q, r := n / limit, n % limit;
    assert n == q * limit + r;
    if k <= q {
      assert k * limit <= q * limit by { Grows(k, q, limit); }
    } else {
      assert (q + 1) * limit <= k * limit by { Grows(q + 1, k, limit); }
      assert (q + 1) * limit == q * limit + limit;
    }
  }

  lemma Grows(a: nat, b: nat, limit: nat)
    requires a <= b
    ensures a * limit <= b * limit
  {
  }

  /** A chain is the listing cut into pages, and ends exactly with page number |listing| / limit. */
  lemma ChainCovers(listing: seq<Card>, limit: nat, pages: seq<seq<Card>>)
    requires UniqueIds(listing) && limit > 0 && IsChain(listing, limit, pages)
    ensures |pages| <= |listing| / limit + 1
    ensures Concatenate(pages) == listing[..Least(|pages| * limit, |listing|)]
    ensures NextCursor(pages[|pages| - 1], limit).None? <==> |pages| == |listing| / limit + 1
    ensures NextCursor(pages[|pages| - 1], limit).None? ==> Concatenate(pages) == listing
  {
    forall k | 0 <= k < |pages|
      ensures IsPage(listing, limit, k, pages[k])
    {
      ChainPages(listing, limit, pages, k);
    }
    PagesConcatenate(listing, limit, pages);
    var last := |pages| - 1;
    NextSlice(listing, limit, PageStart(limit, last));
    PageStartIs(limit, last);
    PageStartIs(limit, |pages|);
    WholePages(|listing|, limit, last);
    WholePages(|listing|, limit, |pages|);
  }

  lemma ChainExtends(listing: seq<Card>, limit: nat, pages: seq<seq<Card>>, next: seq<Card>)
    requires IsChain(listing, limit, pages) && Follows(listing, limit, pages[|pages| - 1], next)
    ensures IsChain(listing, limit, pages + [next])
  {
    var longer := pages + [next];
    forall i | 0 <= i < |longer| - 1
      ensures Follows(listing, limit, longer[i], longer[i + 1])
    {
      assert longer[i] == pages[i];
      assert i + 1 < |pages| ==> Follows(listing, limit, pages[i], pages[i + 1]);
    }
  }

  /** Every chain can be continued to its end, in at most `bound` pages. */
  lemma {:induction false} ChainEnds(listing: seq<Card>, limit: nat, pages: seq<seq<Card>>, bound: nat)
    returns (whole: seq<seq<Card>>)
    requires UniqueIds(listing) && limit > 0 && IsChain(listing, limit, pages)
    requires bound == |listing| / limit + 1
    ensures pages <= whole && |whole| <= bound && IsChain(listing, limit, whole)
    ensures NextCursor(whole[|whole| - 1], limit).None?
    decreases bound - |pages|
  {
    ChainCovers(listing, limit, pages);
    var cursor := NextCursor(pages[|pages| - 1], limit);
    if cursor.None? {
      whole := pages;
    } else {
      var next := PageAfter(listing, cursor, limit);
      ChainExtends(listing, limit, pages, next);
      whole := ChainEnds(listing, limit, pages + [next], bound);
    }
  }

  // ---------------------------------------------------------------- what a client does

  /** Identifiers are those of trips, and the platform leaves their case alone. */
  ghost predicate ProperIds(platform: Platform, trips: seq<Card>) {
    forall t <- trips :: IsTripId(t.id) && platform.lower(t.id) == t.id
  }

  lemma ProperIdReadsBack(platform: Platform, id: Text)
    requires IsTripId(id) && platform.lower(id) == id
    ensures TripId(platform, id) == Some(id)
  {
    assert id[0] in id && id[|id| - 1] in id;
    assert Trim(id) == id;
  }

  lemma {:induction false} SameFilter(platform: Platform, c: Search, d: Search, trips: seq<Card>)
    requires d == c.(cursor := d.cursor)
    ensures Filter(platform, c, trips) == Filter(platform, d, trips)
  {
    if |trips| > 0 {
      SameFilter(platform, c, d, trips[1..]);
      assert Matches(platform, c, trips[0]) == Matches(platform, d, trips[0]);
    }
  }

  /** The cursor does not change what matches. */
  lemma SameListing(platform: Platform, c: Search, d: Search, trips: seq<Card>)
    requires d == c.(cursor := d.cursor)
    ensures Listing(platform, c, trips) == Listing(platform, d, trips)
  {
    SameFilter(platform, c, d, trips);
  }

  /** The search sent with a given cursor, as the route normalises it. */
  function SentBack(platform: Platform, c: Search, cursor: Option<Text>): Search {
    c.(cursor := if cursor.None? then None else TripId(platform, cursor.value))
  }

  /**
   The answers to a client that starts without a cursor and sends each next cursor it is
   given.
   */
  ghost predicate IsWalk(platform: Platform, c: Search, trips: seq<Card>, pages: seq<seq<Card>>) {
    && |pages| > 0
    && pages[0] == SearchPublished(platform, SentBack(platform, c, None), trips)
    && forall i :: 0 <= i < |pages| - 1 ==> IsAnswered(platform, c, trips, pages[i], pages[i + 1])
  }

  predicate IsAnswered(platform: Platform, c: Search, trips: seq<Card>, page: seq<Card>, next: seq<Card>) {
    && NextCursor(page, c.limit).Some?
    && next == SearchPublished(platform, SentBack(platform, c, NextCursor(page, c.limit)), trips)
  }

  /** A search with a cursor of the listing answers with the page after it. */
  lemma AnswerIsNext(platform: Platform, c: Search, trips: seq<Card>, page: seq<Card>, next: seq<Card>)
    requires ProperIds(platform, trips) && UniqueIds(trips)
    requires forall t <- page :: t in Listing(platform, c, trips)
    ensures IsAnswered(platform, c, trips, page, next) <==>
              Follows(Listing(platform, c, trips), c.limit, page, next)
  {
    var cursor := NextCursor(page, c.limit);
    if cursor.Some? {
      var last := page[|page| - 1];
      assert last in page;
      ListingIsExact(platform, c, trips, last);
      ProperIdReadsBack(platform, last.id);
      SameListing(platform, c, SentBack(platform, c, cursor), trips);
    }
  }

  lemma SliceMembers(listing: seq<Card>, start: nat, end: nat)
    ensures forall t <- Slice(listing, start, end) :: t in listing
  {
  }

  lemma WalkChainStep(platform: Platform, c: Search, trips: seq<Card>, pages: seq<seq<Card>>, next: seq<Card>)
    requires ProperIds(platform, trips) && UniqueIds(trips) && c.limit > 0
    requires IsChain(Listing(platform, c, trips), c.limit, pages)
    requires IsAnswered(platform, c, trips, pages[|pages| - 1], next)
    ensures IsChain(Listing(platform, c, trips), c.limit, pages + [next])
  {
    var listing, last := Listing(platform, c, trips), |pages| - 1;
    ListingUnique(platform, c, trips);
    ChainPages(listing, c.limit, pages, last);
    SliceMembers(listing, PageStart(c.limit, last), PageStart(c.limit, last) + c.limit);
    AnswerIsNext(platform, c, trips, pages[last], next);
    ChainExtends(listing, c.limit, pages, next);
  }

  lemma {:induction false} WalkIsChain(platform: Platform, c: Search, trips: seq<Card>, pages: seq<seq<Card>>)
    requires ProperIds(platform, trips) && UniqueIds(trips) && c.limit > 0
    requires IsWalk(platform, c, trips, pages)
    ensures IsChain(Listing(platform, c, trips), c.limit, pages)
    decreases |pages|
  {
    if |pages| == 1 {
      SameListing(platform, c, SentBack(platform, c, None), trips);
    } else {
      var n := |pages| - 2;
      assert IsAnswered(platform, c, trips, pages[n], pages[n + 1]);
      ShorterWalk(platform, c, trips, pages);
      WalkIsChain(platform, c, trips, pages[..n + 1]);
      WalkChainStep(platform, c, trips, pages[..n + 1], pages[n + 1]);
      assert pages == pages[..n + 1] + [pages[n + 1]];
    }
  }

  lemma ShorterWalk(platform: Platform, c: Search, trips: seq<Card>, pages: seq<seq<Card>>)
    requires IsWalk(platform, c, trips, pages) && |pages| > 1
    ensures IsWalk(platform, c, trips, pages[..|pages| - 1])
  {
    var shorter := pages[..|pages| - 1];
    forall i | 0 <= i < |shorter| - 1
      ensures IsAnswered(platform, c, trips, shorter[i], shorter[i + 1])
    {
      assert IsAnswered(platform, c, trips, pages[i], pages[i + 1]);
    }
  }

  /**
   For any accepted criteria, following cursors from the first page lists the matching trips
   in order, none twice and none left out: after `m` answers the client has the first `m`
   pages' worth, it is given no cursor exactly at answer number |listing| / limit + 1, and
   then it has the whole listing. Pages hold one to fifty trips, twenty unless asked.
   */
  lemma WalkCoversListing(platform: Platform, criteria: Criteria, trips: seq<Card>, pages: seq<seq<Card>>)
    requires UniqueIds(trips) && ProperIds(platform, trips)
    requires Normalize(platform, criteria).Ok?
    requires IsWalk(platform, Normalize(platform, criteria).value, trips, pages)
    ensures var c := Normalize(platform, criteria).value;
            var listing := Listing(platform, c, trips);
            && 1 <= c.limit <= 50
            && c.limit as real == (if criteria.limit.None? then 20.0 else criteria.limit.value)
            && |pages| <= |listing| / c.limit + 1
            && Concatenate(pages) == listing[..Least(|pages| * c.limit, |listing|)]
            && (NextCursor(pages[|pages| - 1], c.limit).None? <==> |pages| == |listing| / c.limit + 1)
            && (NextCursor(pages[|pages| - 1], c.limit).None? ==> Concatenate(pages) == listing)
  {
    var c := Normalize(platform, criteria).value;
    WalkIsChain(platform, c, trips, pages);
    ListingUnique(platform, c, trips);
    ChainCovers(Listing(platform, c, trips), c.limit, pages);
  }
}
