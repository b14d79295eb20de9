/**
 Limits in normalised order, and what charging and auditing them does to each bucket.
 */
module AbuseLimits {
  import opened Wrappers
  import opened Text
  import opened KeyedSort
  import opened AbuseProtection

  function KeysOf(policy: Text, limits: seq<Limit>, now: int): set<Key>
    requires Windowed(limits)
  {
    set i | 0 <= i < |limits| :: KeyFor(policy, limits[i], now)
  }

  function Count(audits: seq<Key>, key: Key): nat {
    multiset(audits)[key]
  }

  lemma DistinctKeys(policy: Text, limits: seq<Limit>, now: int)
    requires Windowed(limits) && DistinctAxes(limits)
    ensures forall i, j :: 0 <= i < j < |limits| ==> KeyFor(policy, limits[i], now) != KeyFor(policy, limits[j], now)
  {
  }

  lemma KeysStep(policy: Text, limits: seq<Limit>, now: int, key: Key)
    requires Windowed(limits) && DistinctAxes(limits) && |limits| > 0
    ensures key in KeysOf(policy, limits, now) <==>
              key == KeyFor(policy, limits[0], now) || key in KeysOf(policy, limits[1..], now)
    ensures KeyFor(policy, limits[0], now) !in KeysOf(policy, limits[1..], now)
  {
    var rest := limits[1..];
    if key in KeysOf(policy, limits, now) {
      var i :| 0 <= i < |limits| && KeyFor(policy, limits[i], now) == key;
      assert i > 0 ==> rest[i - 1] == limits[i];
    }
    if key in KeysOf(policy, rest, now) {
      var i :| 0 <= i < |rest| && KeyFor(policy, rest[i], now) == key;
      assert rest[i] == limits[i + 1];
    }
  }

  /** Auditing flags exactly the denied buckets, one event for each that was not flagged. */
  lemma {:induction false} AuditEffect(
      table: Table, policy: Text, denied: seq<Limit>, audits: seq<Key>, now: int, key: Key)
    requires Windowed(denied) && DistinctAxes(denied)
    requires forall k <- KeysOf(policy, denied, now) :: k in table
    ensures var (after, events) := Audit(table, policy, denied, audits, now);
            var mine := key in KeysOf(policy, denied, now);
            && (key in after <==> key in table)
            && (key in table ==> after[key] == table[key].(denialAudited := table[key].denialAudited || mine))
            && Count(events, key) == Count(audits, key) + (if mine && !table[key].denialAudited then 1 else 0)
    decreases |denied|
  {
    if |denied| > 0 {
      var first := KeyFor(policy, denied[0], now);
      assert first in KeysOf(policy, denied, now);
      KeysStep(policy, denied, now, key);
      forall k | k in KeysOf(policy, denied[1..], now)
        ensures k in table
      {
        KeysStep(policy, denied, now, k);
      }
      if !table[first].denialAudited {
        AuditEffect(table[first := table[first].(denialAudited := true)], policy, denied[1..], audits + [first], now, key);
      } else {
        AuditEffect(table, policy, denied[1..], audits, now, key);
      }
    }
  }

  // ---------------------------------------------------------------- normalised limits

  lemma AxisNameInjective(a: Axis, b: Axis)
    ensures AxisName(a) == AxisName(b) <==> a == b
  {
    assert AxisName(a)[0] != AxisName(b)[0] || a == b;
  }

  lemma NamedDistinct(limits: seq<Limit>)
    requires DistinctAxes(limits)
    ensures KeyedSort.DistinctKeys(Named(limits))
  {
    forall i, j | 0 <= i < j < |limits|
      ensures Named(limits)[i].0 != Named(limits)[j].0
    {
      AxisNameInjective(limits[i].axis, limits[j].axis);
    }
  }

  /** Normalised limits are in strictly ascending order of axis name. */
  lemma NormalizedAscends(limits: seq<Limit>)
    requires ValidLimits(limits)
    ensures var sorted := NormalizedLimits(limits).value;
            && DistinctAxes(sorted)
            && forall i, j :: 0 <= i < j < |sorted| ==> Less(AxisName(sorted[i].axis), AxisName(sorted[j].axis))
  {
    var named := Named(limits);
    NamedDistinct(limits);
    SortAscending(named);
    SortKeeps(named);
    var entries := SortByKey(named);
    var sorted := NormalizedLimits(limits).value;
    forall i | 0 <= i < |sorted|
      ensures entries[i].0 == AxisName(sorted[i].axis)
    {
      assert entries[i] in entries && entries[i] in named;
    }
    forall i, j | 0 <= i < j < |sorted|
      ensures Less(AxisName(sorted[i].axis), AxisName(sorted[j].axis)) && sorted[i].axis != sorted[j].axis
    {
      LessTotal(entries[i].0, entries[j].0);
    }
  }

  /** The order in which a caller lists the axes is irrelevant: the normalised limits are the same. */
  lemma OrderIrrelevant(a: seq<Limit>, b: seq<Limit>)
    requires multiset(a) == multiset(b)
    ensures NormalizedLimits(a) == NormalizedLimits(b)
  {
    assert |a| == |multiset(a)| == |multiset(b)| == |b|;
    if ValidLimits(a) {
      ValidityShared(a, b);
    }
    if ValidLimits(b) {
      ValidityShared(b, a);
    }
    if ValidLimits(a) {
      NamedShared(a, b);
      NamedShared(b, a);
      var na, nb := Named(a), Named(b);
      NamedDistinct(a);
      NamedDistinct(b);
      SortAscending(na);
      SortAscending(nb);
      SortKeeps(na);
      SortKeeps(nb);
      AscendingUnique(SortByKey(na), SortByKey(nb));
    }
  }

  lemma NamedShared(a: seq<Limit>, b: seq<Limit>)
    requires multiset(a) == multiset(b)
    ensures forall e <- Named(a) :: e in Named(b)
  {
    forall e | e in Named(a)
      ensures e in Named(b)
    {
      var i :| 0 <= i < |a| && Named(a)[i] == e;
      assert a[i] in multiset(a) && a[i] in multiset(b);
      var j :| 0 <= j < |b| && b[j] == a[i];
      assert Named(b)[j] == e;
    }
  }

  lemma {:induction false} OccursTwice(t: seq<Limit>, i: nat, j: nat)
    requires i < j < |t| && t[i] == t[j]
    ensures multiset(t)[t[i]] >= 2
  {
    assert t == t[..i] + [t[i]] + t[i + 1..j] + [t[j]] + t[j + 1..];
  }

  lemma {:induction false} TwoPlaces(t: seq<Limit>, x: Limit)
    requires multiset(t)[x] >= 2
    ensures exists i, j :: 0 <= i < j < |t| && t[i] == x && t[j] == x
  {
    assert x in multiset(t);
    var i :| 0 <= i < |t| && t[i] == x;
    var rest := t[..i] + t[i + 1..];
    assert t == t[..i] + [t[i]] + t[i + 1..];
    assert multiset(t) == multiset(rest) + multiset{x};
    assert x in multiset(rest);
    var j :| 0 <= j < |rest| && rest[j] == x;
    var other := if j < i then j else j + 1;
    assert t[other] == x;
    if other < i {
      assert 0 <= other < i < |t| && t[other] == x && t[i] == x;
    } else {
      assert 0 <= i < other < |t| && t[i] == x && t[other] == x;
    }
  }

  lemma ValidityShared(a: seq<Limit>, b: seq<Limit>)
    requires multiset(a) == multiset(b) && |a| == |b| && ValidLimits(a)
    ensures ValidLimits(b)
  {
    forall limit | limit in b
      ensures limit in a
    {
      assert limit in multiset(b) && limit in multiset(a);
    }
    forall i, j | 0 <= i < j < |b|
      ensures b[i].axis != b[j].axis
    {
      if b[i] == b[j] {
        OccursTwice(b, i, j);
        TwoPlaces(a, b[i]);
      } else {
        assert b[i] in a && b[j] in a;
        var m :| 0 <= m < |a| && a[m] == b[i];
        var n :| 0 <= n < |a| && a[n] == b[j];
        assert m != n;
      }
    }
  }

  // ---------------------------------------------------------------- which requests are evaluated

  predicate SmallLetter(u: Unit) {
    97 <= u <= 122
  }

  /** A small letter, then small letters, digits, dots and hyphens; 2 to 80 of them. */
  predicate PolicyNamed(t: Text) {
    && 2 <= |t| <= 80 && SmallLetter(t[0])
    && forall i :: 1 <= i < |t| ==> SmallLetter(t[i]) || 48 <= t[i] <= 57 || t[i] == 46 || t[i] == 45
  }

  /** Trimmed and without control characters. */
  predicate Plain(t: Text, most: nat) {
    1 <= |t| <= most && Trim(t) == t && forall i :: 0 <= i < |t| ==> 32 <= t[i] && t[i] != 127
  }

  predicate LimitFits(limit: Limit) {
    1 <= limit.maximumAttempts <= 10_000 && Plain(limit.subject, 512) && 1_000 <= limit.windowMs <= 24 * 60 * 60 * 1_000
  }

  predicate LimitsFit(limits: seq<Limit>) {
    && 1 <= |limits| <= 5
    && (forall i, j :: 0 <= i < j < |limits| ==> limits[i].axis != limits[j].axis)
    && forall i :: 0 <= i < |limits| ==> LimitFits(limits[i])
  }

  lemma PlainIff(t: Text, most: nat)
    ensures BoundedText(t, most) <==> Plain(t, most)
  {
    assert forall i :: 0 <= i < |t| ==> t[i] in t;
  }

  lemma PolicyNamedIff(t: Text)
    ensures ValidPolicy(t) <==> PolicyNamed(t)
  {
    if |t| > 0 {
      assert forall i :: 1 <= i < |t| ==> t[i] == t[1..][i - 1];
      assert forall i :: 1 <= i < |t| ==> t[i] in t[1..];
    }
  }

  /** A request is refused for the first of its parts that does not fit, and evaluated exactly if all do. */
  lemma RefusalIsExact(request: Request)
    ensures Refuse(request)
         == FirstFailing([(PolicyNamed(request.policy), InvalidPolicy),
                          (Plain(request.correlationId, 120), InvalidCorrelation),
                          (LimitsFit(request.limits), InvalidLimits)])
  {
    var checks := [(PolicyNamed(request.policy), InvalidPolicy), (Plain(request.correlationId, 120), InvalidCorrelation),
                   (LimitsFit(request.limits), InvalidLimits)];
    forall k | 0 <= k < 3 {
      FailingFrom(checks, k);
    }
    assert checks == checks[0..] && checks[3..] == [];
    PolicyNamedIff(request.policy);
    PlainIff(request.correlationId, 120);
    forall i | 0 <= i < |request.limits|
      ensures ValidLimit(request.limits[i]) <==> LimitFits(request.limits[i])
    {
      PlainIff(request.limits[i].subject, 512);
    }
  }
}
