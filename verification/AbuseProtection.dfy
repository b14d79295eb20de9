/**
 The fixed-window limiter: request validation, the shared counter table, and the
 transaction that sweeps expired buckets, charges every axis, and audits denials.
 Times are milliseconds; one evaluation is one transaction.
 */
module AbuseProtection {
  import opened Wrappers
  import opened Text
  import opened KeyedSort

  datatype Axis = Network | Account | Session | Device | Target

  datatype Limit = Limit(axis: Axis, maximumAttempts: int, subject: Text, windowMs: int)

  datatype Request = Request(policy: Text, correlationId: Text, limits: seq<Limit>)

  /** The keyed digest of an axis and of a subject's UTF-8 form, modelled as injective. */
  datatype SubjectDigest = SubjectDigest(axis: Axis, subject: Text)

  datatype Key = Key(policy: Text, axis: Axis, subject: SubjectDigest, windowStartedAt: int)

  datatype Bucket = Bucket(attemptCount: nat, expiresAt: int, denialAudited: bool)

  type Table = map<Key, Bucket>

  datatype Decision =
    | Allowed
    | Denied(axes: seq<Axis>, retryAfterSeconds: int)

  const MAXIMUM_WINDOW_MS := 86_400_000
  const MAXIMUM_RETRY_SECONDS := 86_400

  // ---------------------------------------------------------------- validation

  datatype Refusal = InvalidPolicy | InvalidCorrelation | InvalidLimits

  predicate IsLower(u: Unit) { 97 <= u <= 122 }

  predicate ValidPolicy(t: Text) {
    2 <= |t| <= 80 && IsLower(t[0]) && forall u <- t[1..] :: IsLower(u) || IsDigit(u) || u == 46 || u == MINUS
  }

  predicate BoundedText(t: Text, maximum: nat) {
    && 1 <= |t| <= maximum
    && !IsSpace(t[0]) && !IsSpace(t[|t| - 1])
    && forall u <- t :: u > 31 && u != 127
  }

  predicate ValidLimit(limit: Limit) {
    && 1 <= limit.maximumAttempts <= 10_000
    && BoundedText(limit.subject, 512)
    && 1_000 <= limit.windowMs <= MAXIMUM_WINDOW_MS
  }

  predicate DistinctAxes(limits: seq<Limit>) {
    forall i, j :: 0 <= i < j < |limits| ==> limits[i].axis != limits[j].axis
  }

  predicate ValidLimits(limits: seq<Limit>) {
    1 <= |limits| <= 5 && DistinctAxes(limits) && forall limit <- limits :: ValidLimit(limit)
  }

  function AxisName(axis: Axis): Text {
    match axis
    case Network => Ascii("NETWORK")
    case Account => Ascii("ACCOUNT")
    case Session => Ascii("SESSION")
    case Device => Ascii("DEVICE")
    case Target => Ascii("TARGET")
  }

  function Named(limits: seq<Limit>): (r: seq<(Text, Limit)>)
    ensures |r| == |limits|
    ensures forall i :: 0 <= i < |limits| ==> r[i] == (AxisName(limits[i].axis), limits[i])
  {
    if |limits| == 0 then [] else [(AxisName(limits[0].axis), limits[0])] + Named(limits[1..])
  }

  function Unnamed(entries: seq<(Text, Limit)>): (r: seq<Limit>)
    ensures |r| == |entries|
    ensures forall i :: 0 <= i < |entries| ==> r[i] == entries[i].1
  {
    if |entries| == 0 then [] else [entries[0].1] + Unnamed(entries[1..])
  }

  /** The limits in axis-name order, or a refusal. */
  function NormalizedLimits(limits: seq<Limit>): Option<seq<Limit>> {
    if ValidLimits(limits) then Some(Unnamed(SortByKey(Named(limits)))) else None
  }

  function Refuse(request: Request): Option<Refusal> {
    if !ValidPolicy(request.policy) then Some(InvalidPolicy)
    else if !BoundedText(request.correlationId, 120) then Some(InvalidCorrelation)
    else if !ValidLimits(request.limits) then Some(InvalidLimits)
    else None
  }

  // ---------------------------------------------------------------- one evaluation

  predicate Windowed(limits: seq<Limit>) {
    forall i :: 0 <= i < |limits| ==> limits[i].windowMs > 0
  }

  function WindowStart(now: int, windowMs: int): int
    requires windowMs > 0
  {
    (now / windowMs) * windowMs
  }

  function KeyFor(policy: Text, limit: Limit, now: int): Key
    requires limit.windowMs > 0
  {
    Key(policy, limit.axis, SubjectDigest(limit.axis, Scrub(limit.subject)), WindowStart(now, limit.windowMs))
  }

  function Expiry(limit: Limit, now: int): int
    requires limit.windowMs > 0
  {
    WindowStart(now, limit.windowMs) + limit.windowMs
  }

  function Upsert(table: Table, key: Key, expiresAt: int): Table {
    if key in table
    then table[key := table[key].(attemptCount := table[key].attemptCount + 1)]
    else table[key := Bucket(1, expiresAt, false)]
  }

  /** Charges the remaining limits in order, collecting the denied ones. */
  function Charge(table: Table, policy: Text, limits: seq<Limit>, denied: seq<Limit>, now: int)
    : (Table, seq<Limit>)
    requires Windowed(limits)
    decreases |limits|
  {
    if |limits| == 0 then (table, denied)
    else
      var key := KeyFor(policy, limits[0], now);
      var charged := Upsert(table, key, Expiry(limits[0], now));
      Charge(charged, policy, limits[1..],
             if charged[key].attemptCount > limits[0].maximumAttempts then denied + [limits[0]] else denied,
             now)
  }

  /** Flags the buckets not flagged before; each newly flagged one yields an audit event. */
  function Audit(table: Table, policy: Text, denied: seq<Limit>, audits: seq<Key>, now: int): (Table, seq<Key>)
    requires Windowed(denied)
    decreases |denied|
  {
    if |denied| == 0 then (table, audits)
    else
      var key := KeyFor(policy, denied[0], now);
      if key in table && !table[key].denialAudited
      then Audit(table[key := table[key].(denialAudited := true)], policy, denied[1..], audits + [key], now)
      else Audit(table, policy, denied[1..], audits, now)
  }

  function CeilSeconds(milliseconds: int): int {
    (milliseconds + 999) / 1_000
  }

  function LongestWait(denied: seq<Limit>, now: int): int
    requires |denied| > 0 && Windowed(denied)
  {
    var first := CeilSeconds(Expiry(denied[0], now) - now);
    if |denied| == 1 then first
    else
      var rest := LongestWait(denied[1..], now);
      if first > rest then first else rest
  }

  function Clamp(value: int): int {
    var atLeastOne := if value < 1 then 1 else value;
    if atLeastOne > MAXIMUM_RETRY_SECONDS then MAXIMUM_RETRY_SECONDS else atLeastOne
  }

  function AxesOf(limits: seq<Limit>): (r: seq<Axis>)
    ensures |r| == |limits|
  {
    if |limits| == 0 then [] else [limits[0].axis] + AxesOf(limits[1..])
  }

  function Decide(denied: seq<Limit>, now: int): Decision
    requires Windowed(denied)
  {
    if |denied| == 0 then Allowed else Denied(AxesOf(denied), Clamp(LongestWait(denied, now)))
  }

  function ExpiredKeys(table: Table, now: int): set<Key> {
    set key | key in table && table[key].expiresAt <= now
  }

  /**
   A sweep the cleanup may perform: `batch` expired buckets if there are that many, the
   earliest first, ties broken freely.
   */
  ghost predicate IsSweep(table: Table, now: int, batch: nat, removed: set<Key>) {
    && removed <= ExpiredKeys(table, now)
    && |removed| == (if |ExpiredKeys(table, now)| < batch then |ExpiredKeys(table, now)| else batch)
    && forall gone <- removed, kept <- ExpiredKeys(table, now) - removed ::
         table[gone].expiresAt <= table[kept].expiresAt
  }

  /** The whole transaction after normalisation, for a given sweep. */
  function Evaluate(
      table: Table, policy: Text, limits: seq<Limit>, removed: set<Key>, audits: seq<Key>, now: int)
    : (Table, seq<Key>, Decision)
    requires Windowed(limits)
  {
    var (charged, denied) := Charge(table - removed, policy, limits, [], now);
    DeniedAreLimits(table - removed, policy, limits, [], now);
    var (audited, events) := Audit(charged, policy, denied, audits, now);
    (audited, events, Decide(denied, now))
  }

  lemma {:induction false} DeniedAreLimits(
      table: Table, policy: Text, limits: seq<Limit>, denied: seq<Limit>, now: int)
    requires Windowed(limits)
    requires Windowed(denied)
    ensures forall d <- Charge(table, policy, limits, denied, now).1 :: d in limits || d in denied
    ensures Windowed(Charge(table, policy, limits, denied, now).1)
    decreases |limits|
  {
    if |limits| > 0 {
      var key := KeyFor(policy, limits[0], now);
      var charged := Upsert(table, key, Expiry(limits[0], now));
      DeniedAreLimits(charged, policy, limits[1..],
        if charged[key].attemptCount > limits[0].maximumAttempts then denied + [limits[0]] else denied, now);
    }
  }

  // ---------------------------------------------------------------- the class

  /** How many buckets one sweep may remove, within the bounds the limiter accepts. */
  type BatchSize = n: nat | 1 <= n <= 1_000 witness 100

  class PostgresAbuseProtection {
    const cleanupBatchSize: BatchSize
    var buckets: Table
    var auditEvents: seq<Key>

    constructor (cleanupBatchSize: BatchSize)
      ensures this.cleanupBatchSize == cleanupBatchSize && buckets == map[] && auditEvents == []
    {
      this.cleanupBatchSize := cleanupBatchSize;
      buckets := map[];
      auditEvents := [];
    }

    /** Removes expired buckets, earliest first, up to the batch size. */
    method Sweep(now: int) returns (ghost removed: set<Key>)
      modifies `buckets
      ensures IsSweep(old(buckets), now, cleanupBatchSize, removed)
      ensures buckets == old(buckets) - removed
    {
      removed := {};
      var expired := ExpiredKeys(buckets, now);
      var left: nat := cleanupBatchSize;
      while left > 0 && expired != {}
        invariant removed + expired == ExpiredKeys(old(buckets), now) && removed !! expired
        invariant |removed| + left == cleanupBatchSize
        invariant buckets == old(buckets) - removed
        invariant forall gone <- removed, kept <- expired ::
                    old(buckets)[gone].expiresAt <= old(buckets)[kept].expiresAt
        decreases left
      {
        EarliestExists(buckets, expired);
        var next :| next in expired && forall other <- expired :: buckets[next].expiresAt <= buckets[other].expiresAt;
        buckets := buckets - {next};
        expired := expired - {next};
        removed := removed + {next};
        left := left - 1;
      }
      assert ExpiredKeys(old(buckets), now) - removed == expired;
      assert |ExpiredKeys(old(buckets), now)| == |removed| + |expired|;
    }

    /** Charges every limit in turn. */
    method ChargeEach(policy: Text, limits: seq<Limit>, now: int) returns (denied: seq<Limit>)
      requires Windowed(limits)
      modifies `buckets
      ensures (buckets, denied) == Charge(old(buckets), policy, limits, [], now)
      ensures Windowed(denied)
    {
      denied := [];
      for i := 0 to |limits|
        invariant Windowed(denied)
        invariant Charge(buckets, policy, limits[i..], denied, now) == Charge(old(buckets), policy, limits, [], now)
      {
        var key := KeyFor(policy, limits[i], now);
        buckets := Upsert(buckets, key, Expiry(limits[i], now));
        if buckets[key].attemptCount > limits[i].maximumAttempts {
          denied := denied + [limits[i]];
        }
        assert limits[i..][1..] == limits[i + 1..];
      }
    }

    /** Claims the audit of every denied bucket that has none yet. */
    method AuditEach(policy: Text, denied: seq<Limit>, now: int)
      requires Windowed(denied)
      modifies this
      ensures (buckets, auditEvents) == Audit(old(buckets), policy, denied, old(auditEvents), now)
    {
      for i := 0 to |denied|
        invariant Audit(buckets, policy, denied[i..], auditEvents, now)
               == Audit(old(buckets), policy, denied, old(auditEvents), now)
      {
        var key := KeyFor(policy, denied[i], now);
        if key in buckets && !buckets[key].denialAudited {
          buckets := buckets[key := buckets[key].(denialAudited := true)];
          auditEvents := auditEvents + [key];
        }
        assert denied[i..][1..] == denied[i + 1..];
      }
    }

    /** The transaction of one request; a refused request touches nothing. */
    method EvaluateRequest(request: Request, now: int)
      returns (result: Result<Decision, Refusal>, ghost removed: set<Key>)
      modifies this
      ensures Refuse(request).Some? ==>
                && result == Err(Refuse(request).value)
                && buckets == old(buckets) && auditEvents == old(auditEvents)
      ensures Refuse(request).None? ==>
                var limits := NormalizedLimits(request.limits).value;
                && Windowed(limits)
                && IsSweep(old(buckets), now, cleanupBatchSize, removed)
                && (buckets, auditEvents, result)
                   == (var r := Evaluate(old(buckets), request.policy, limits, removed, old(auditEvents), now);
                       (r.0, r.1, Ok(r.2)))
    {
      removed := {};
      var refusal := Refuse(request);
      if refusal.Some? {
        return Err(refusal.value), removed;
      }
      var limits := NormalizedLimits(request.limits).value;
      NormalizedLimitsKeep(request.limits);
      removed := Sweep(now);
      var denied := ChargeEach(request.policy, limits, now);
      AuditEach(request.policy, denied, now);
      if |denied| == 0 {
        return Ok(Allowed), removed;
      }
      result := Ok(Denied(AxesOf(denied), Clamp(LongestWait(denied, now))));
    }
  }

  lemma EarliestExists(table: Table, keys: set<Key>)
    requires keys != {} && forall key <- keys :: key in table
    ensures exists first :: first in keys && forall other <- keys :: table[first].expiresAt <= table[other].expiresAt
  {
    var some :| some in keys;
    var rest := keys - {some};
    if rest == {} {
      assert keys == {some};
    } else {
      EarliestExists(table, rest);
      var first :| first in rest && forall other <- rest :: table[first].expiresAt <= table[other].expiresAt;
      var best := if table[some].expiresAt <= table[first].expiresAt then some else first;
      assert forall other <- keys :: other == some || other in rest;
      assert best in keys && forall other <- keys :: table[best].expiresAt <= table[other].expiresAt;
    }
  }

  /** Normalising only reorders, so it keeps validity. */
  lemma NormalizedLimitsKeep(limits: seq<Limit>)
    requires ValidLimits(limits)
    ensures var sorted := NormalizedLimits(limits).value;
            && |sorted| == |limits|
            && (forall limit :: limit in sorted <==> limit in limits)
            && (forall limit <- sorted :: ValidLimit(limit))
            && Windowed(sorted)
  {
    var named := Named(limits);
    var sortedNames := SortByKey(named);
    SortKeeps(named);
    var sorted := NormalizedLimits(limits).value;
    assert forall i :: 0 <= i < |sorted| ==> sorted[i] in sorted;
    forall limit
      ensures limit in sorted <==> limit in limits
    {
      if limit in sorted {
        var i :| 0 <= i < |sorted| && sorted[i] == limit;
        assert sortedNames[i] in multiset(sortedNames) && sortedNames[i] in multiset(named);
        assert sortedNames[i] in named;
        var j :| 0 <= j < |named| && named[j] == sortedNames[i];
        assert limits[j] == limit;
      }
      if limit in limits {
        var j :| 0 <= j < |limits| && limits[j] == limit;
        assert named[j] in multiset(named) && named[j] in multiset(sortedNames);
        assert named[j] in sortedNames;
        var i :| 0 <= i < |sortedNames| && sortedNames[i] == named[j];
        assert sorted[i] == limit;
      }
    }
  }
}
