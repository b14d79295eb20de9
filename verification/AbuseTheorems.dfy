/**
 What the limiter guarantees over all runs of interleaving evaluations, and exactly when a
 bucket tells less than the truth: when an evaluation that read the clock before its window
 ended charges the bucket after a sweep with a later clock has removed it.
 */
module AbuseTheorems {
  import opened Wrappers
  import opened Text
  import opened KeyedSort
  import opened AbuseProtection
  import opened AbuseLimits
  import opened AbuseRuns

  /** The bucket was charged after it had been removed. */
  ghost predicate LateCharge(history: seq<Evaluation>, key: Key) {
    exists i, j :: 0 <= i < j < |history| && key in history[i].removed && key in history[j].charged
  }

  // ---------------------------------------------------------------- counts

  lemma PrefixInv(history: seq<Evaluation>, rules: Rules, n: nat)
    requires HistoryInv(history, rules) && n <= |history|
    ensures HistoryInv(history[..n], rules)
  {
    forall i, key | 0 <= i < n
      ensures EntryInv(history[..n], rules, i, key)
    {
      assert EntryInv(history, rules, i, key);
      assert history[..n][..i] == history[..i];
    }
  }

  /** The count since the last removal is all attempts exactly when there was no removal. */
  lemma {:induction false} CurrentIsAll(history: seq<Evaluation>, rules: Rules, key: Key)
    requires HistoryInv(history, rules)
    ensures Current(history, key) <= Attempts(history, key)
    ensures Current(history, key) == Attempts(history, key) <==> Removals(history, key) == 0
  {
    if |history| > 0 {
      var n := |history| - 1;
      PrefixInv(history, rules, n);
      CurrentIsAll(history[..n], rules, key);
      assert EntryInv(history, rules, n, key);
    }
  }

  lemma {:induction false} RemovedSomewhere(history: seq<Evaluation>, key: Key)
    ensures Removals(history, key) > 0 <==> exists i :: 0 <= i < |history| && key in history[i].removed
  {
    if |history| > 0 {
      var n := |history| - 1;
      RemovedSomewhere(history[..n], key);
      assert forall i :: 0 <= i < n ==> history[..n][i] == history[i];
    }
  }

  /** After a removal the count is positive exactly when there was a charge since, hence a late one. */
  lemma {:induction false} ChargedSince(history: seq<Evaluation>, rules: Rules, key: Key)
    requires HistoryInv(history, rules)
    ensures Current(history, key) > 0 && Removals(history, key) > 0 ==> LateCharge(history, key)
    ensures LateCharge(history, key) ==> Removals(history, key) > 0
  {
    if |history| > 0 {
      var n := |history| - 1;
      PrefixInv(history, rules, n);
      ChargedSince(history[..n], rules, key);
      RemovedSomewhere(history, key);
      assert forall i :: 0 <= i < n ==> history[..n][i] == history[i];
      if Current(history, key) > 0 && Removals(history, key) > 0 {
        RemovedSomewhere(history[..n], key);
        if key in history[n].charged {
          var i :| 0 <= i < n && key in history[i].removed;
        } else {
          var i, j :| 0 <= i < j < n && key in history[..n][i].removed && key in history[..n][j].charged;
          assert key in history[i].removed && key in history[j].charged;
        }
      }
    }
  }

  /** Without a late charge the bucket went above the maximum once, if its attempts did. */
  lemma {:induction false} OverrunsOnce(history: seq<Evaluation>, rules: Rules, key: Key)
    requires HistoryInv(history, rules) && !LateCharge(history, key)
    ensures Overruns(history, key, MaximumOf(rules, key))
         == One(Attempts(history, key) > 0 && Attempts(history, key) > MaximumOf(rules, key))
  {
    if |history| > 0 {
      var n := |history| - 1;
      var before := history[..n];
      PrefixInv(history, rules, n);
      assert forall i :: 0 <= i < n ==> before[i] == history[i];
      OverrunsOnce(before, rules, key);
      assert EntryInv(history, rules, n, key);
      if key in history[n].charged {
        RemovedSomewhere(before, key);
        CurrentIsAll(before, rules, key);
      }
    }
  }

  /** A late charge is by an evaluation that was under way when its window ended. */
  lemma LateChargeStraddles(s: State, rules: Rules, key: Key, i: nat, j: nat)
    requires HistoryInv(s.history, rules) && TimesInv(s)
    requires i < j < |s.history| && key in s.history[i].removed && key in s.history[j].charged
    ensures s.history[j].at < EndOf(rules, key) <= s.history[i].at
    ensures EndOf(rules, key) <= s.history[j].doneAt
  {
    assert EntryInv(s.history, rules, i, key) && EntryInv(s.history, rules, j, key);
    WindowHolds(s.history[j].at, rules(key.policy, key.axis).windowMs);
  }

  lemma RemovedAfterEnd(s: State, rules: Rules, key: Key)
    requires HistoryInv(s.history, rules) && TimesInv(s) && Removals(s.history, key) > 0
    ensures EndOf(rules, key) <= s.clock
  {
    RemovedSomewhere(s.history, key);
    var i :| 0 <= i < |s.history| && key in s.history[i].removed;
    assert EntryInv(s.history, rules, i, key);
  }

  /**
   In every reachable state a bucket holds the true number of committed attempts in its window
   exactly when no sweep has removed it: always while the window is not over, and afterwards,
   for a bucket that is there, exactly when it had no late charge. It is flagged exactly above
   the maximum; and it has one audit event each time it goes above, so without a late charge
   exactly one if its attempts exceed the maximum and else none.
   */
  lemma CountsAreTrue(clock: int, batch: BatchSize, rules: Rules, actions: seq<Action>, key: Key)
    ensures var s := Run(Init(clock), batch, rules, actions);
            var n := Attempts(s.history, key);
            var count := if key in s.table then s.table[key].attemptCount else 0;
            var maximum := MaximumOf(rules, key);
            && (count == n <==> Removals(s.history, key) == 0)
            && (s.clock < EndOf(rules, key) ==> count == n)
            && (key in s.table ==>
                  && (count == n <==> !LateCharge(s.history, key))
                  && (s.table[key].denialAudited <==> count > maximum))
            && Count(s.audits, key) == Overruns(s.history, key, maximum)
            && (!LateCharge(s.history, key) ==> Count(s.audits, key) == One(n > 0 && n > maximum))
  {
    InitInv(clock, rules);
    InvRun(Init(clock), batch, rules, actions);
    var s := Run(Init(clock), batch, rules, actions);
    assert RowInv(s, rules, key);
    CurrentIsAll(s.history, rules, key);
    ChargedSince(s.history, rules, key);
    if Removals(s.history, key) > 0 {
      RemovedAfterEnd(s, rules, key);
    }
    if !LateCharge(s.history, key) {
      OverrunsOnce(s.history, rules, key);
    }
  }

  // ---------------------------------------------------------------- decisions

  lemma {:induction false} AxesMember(limits: seq<Limit>, axis: Axis)
    ensures axis in AxesOf(limits) <==> exists limit <- limits :: limit.axis == axis
  {
    if |limits| > 0 {
      AxesMember(limits[1..], axis);
      assert limits == [limits[0]] + limits[1..];
    }
  }

  lemma DeniedAxes(s: State, rules: Rules, tx: Tx, i: nat)
    requires TxInv(s, rules, tx) && Finished(tx) && i < |tx.limits|
    ensures tx.limits[i].axis in AxesOf(tx.denied) <==> tx.limits[i] in tx.denied
  {
    AxesMember(tx.denied, tx.limits[i].axis);
    if tx.limits[i] in tx.denied {
      assert exists limit <- tx.denied :: limit.axis == tx.limits[i].axis;
    }
    if d :| d in tx.denied && d.axis == tx.limits[i].axis {
      assert d in tx.limits[..tx.charged];
      var m :| 0 <= m < tx.charged && tx.limits[..tx.charged][m] == d;
      assert m == i;
    }
  }

  lemma NoneDenied(s: State, rules: Rules, tx: Tx)
    requires TxInv(s, rules, tx) && Finished(tx)
    ensures |tx.denied| == 0 <==> forall i :: 0 <= i < |tx.limits| ==> tx.limits[i] !in tx.denied
  {
    if |tx.denied| > 0 {
      assert tx.denied[0] in tx.limits[..tx.charged];
      var m :| 0 <= m < tx.charged && tx.limits[..tx.charged][m] == tx.denied[0];
      assert tx.limits[m] in tx.denied;
    }
  }

  /**
   An evaluation about to commit, whatever interleaved with it, denies exactly the axes whose
   buckets have no room left since they were last removed, and is let through exactly when
   there are none; that count is the true attempts exactly when the bucket was never removed,
   as it can have been only after its window was over and while the evaluation was under way.
   */
  lemma DecisionIsExact(
      clock: int, batch: BatchSize, rules: Rules, actions: seq<Action>, id: nat, i: nat)
    requires id in Run(Init(clock), batch, rules, actions).txs
    requires Finished(Run(Init(clock), batch, rules, actions).txs[id])
    requires i < |Run(Init(clock), batch, rules, actions).txs[id].limits|
    ensures var s := Run(Init(clock), batch, rules, actions);
            var tx := s.txs[id];
            var key := KeyFor(tx.policy, tx.limits[i], tx.now);
            && (tx.limits[i].axis in AxesOf(tx.denied) <==>
                  Current(s.history, key) >= tx.limits[i].maximumAttempts)
            && (Decide(tx.denied, tx.now).Allowed? <==>
                  forall j :: 0 <= j < |tx.limits| ==> tx.limits[j].axis !in AxesOf(tx.denied))
            && (Decide(tx.denied, tx.now).Denied? ==> Decide(tx.denied, tx.now).axes == AxesOf(tx.denied))
            && (Current(s.history, key) == Attempts(s.history, key) <==> Removals(s.history, key) == 0)
            && (Removals(s.history, key) > 0 ==> tx.now < EndOf(rules, key) <= s.clock)
  {
    InitInv(clock, rules);
    InvRun(Init(clock), batch, rules, actions);
    var s := Run(Init(clock), batch, rules, actions);
    var tx := s.txs[id];
    assert TxInv(s, rules, tx);
    assert WriteInv(s.history, tx, i);
    var key := KeyFor(tx.policy, tx.limits[i], tx.now);
    CurrentIsAll(s.history, rules, key);
    WrittenRule(s, rules, tx, i);
    if Removals(s.history, key) > 0 {
      RemovedAfterEnd(s, rules, key);
    }
    NoneDenied(s, rules, tx);
    forall j | 0 <= j < |tx.limits|
      ensures tx.limits[j].axis in AxesOf(tx.denied) <==> tx.limits[j] in tx.denied
    {
      DeniedAxes(s, rules, tx, j);
    }
  }

  // ---------------------------------------------------------------- rate bounds

  function Least(a: int, b: int): int {
    if a <= b then a else b
  }

  /** What a bucket let pass is the maximum, or all attempts if fewer, and every slip besides. */
  lemma {:induction false} PassedIsExact(history: seq<Evaluation>, rules: Rules, key: Key)
    requires HistoryInv(history, rules)
    ensures Attempts(history, key) > 0 ==> MaximumOf(rules, key) >= 1
    ensures Attempts(history, key) > 0 ==>
              Passed(history, key)
              == Least(MaximumOf(rules, key), Attempts(history, key)) + Slips(history, key, MaximumOf(rules, key))
    ensures Attempts(history, key) == 0 ==>
              Passed(history, key) == 0 && Slips(history, key, MaximumOf(rules, key)) == 0
    ensures Admitted(history, key) <= Passed(history, key)
  {
    if |history| > 0 {
      var n := |history| - 1;
      PrefixInv(history, rules, n);
      PassedIsExact(history[..n], rules, key);
      CurrentIsAll(history[..n], rules, key);
      assert EntryInv(history, rules, n, key);
    }
  }

  /** Slips come from late charges. */
  lemma {:induction false} SlipsAreLate(history: seq<Evaluation>, rules: Rules, key: Key, maximum: int)
    requires HistoryInv(history, rules) && Slips(history, key, maximum) > 0
    ensures LateCharge(history, key)
  {
    var n := |history| - 1;
    var before := history[..n];
    PrefixInv(history, rules, n);
    assert forall i :: 0 <= i < n ==> before[i] == history[i];
    if Slips(before, key, maximum) > 0 {
      SlipsAreLate(before, rules, key, maximum);
    } else {
      CurrentIsAll(before, rules, key);
      RemovedSomewhere(before, key);
      var i :| 0 <= i < n && key in before[i].removed;
      assert key in history[i].removed && key in history[n].charged;
    }
  }

  /** Once a bucket has been charged late, the first attempt beyond the maximum slips through, if none did before. */
  lemma {:induction false} LateAttemptsSlip(history: seq<Evaluation>, rules: Rules, key: Key)
    requires HistoryInv(history, rules) && LateCharge(history, key)
    requires Attempts(history, key) > MaximumOf(rules, key)
    ensures Slips(history, key, MaximumOf(rules, key)) > 0
  {
    var n := |history| - 1;
    var before := history[..n];
    PrefixInv(history, rules, n);
    assert forall i :: 0 <= i < n ==> before[i] == history[i];
    if LateCharge(before, key) && Attempts(before, key) > MaximumOf(rules, key) {
      LateAttemptsSlip(before, rules, key);
    } else {
      var i, j :| 0 <= i < j < |history| && key in history[i].removed && key in history[j].charged;
      assert j < n ==> key in before[i].removed && key in before[j].charged;
      assert key in history[n].charged && EntryInv(history, rules, n, key);
      RemovedSomewhere(before, key);
      assert key in before[i].removed;
      CurrentIsAll(before, rules, key);
      ChargedSince(before, rules, key);
    }
  }

  /** Something slips exactly when a bucket was charged late and has more attempts than the maximum. */
  lemma SlipsExactly(history: seq<Evaluation>, rules: Rules, key: Key)
    requires HistoryInv(history, rules)
    ensures Slips(history, key, MaximumOf(rules, key)) > 0
       <==> LateCharge(history, key) && Attempts(history, key) > MaximumOf(rules, key)
  {
    if Slips(history, key, MaximumOf(rules, key)) > 0 {
      SlipsNeedAttempts(history, key, MaximumOf(rules, key));
      SlipsAreLate(history, rules, key, MaximumOf(rules, key));
    } else if LateCharge(history, key) && Attempts(history, key) > MaximumOf(rules, key) {
      LateAttemptsSlip(history, rules, key);
    }
  }

  /**
   A fixed window admits no more than its bucket lets pass, and the bucket lets pass at most
   the maximum exactly when it was never charged late or has no more attempts than that: as
   long as the requests are within the maximum, or no evaluation that read the clock before
   the end of the window charges the bucket after a sweep that came later has removed it.
   */
  lemma WindowBound(clock: int, batch: BatchSize, rules: Rules, actions: seq<Action>, key: Key)
    requires MaximumOf(rules, key) >= 0
    ensures var s := Run(Init(clock), batch, rules, actions);
            var maximum := MaximumOf(rules, key);
            && Admitted(s.history, key) <= Passed(s.history, key) <= maximum + Slips(s.history, key, maximum)
            && (Passed(s.history, key) <= maximum <==>
                  !LateCharge(s.history, key) || Attempts(s.history, key) <= maximum)
            && (LateCharge(s.history, key) ==>
                  exists j :: 0 <= j < |s.history| && key in s.history[j].charged
                    && s.history[j].at < EndOf(rules, key) <= s.history[j].doneAt)
  {
    InitInv(clock, rules);
    InvRun(Init(clock), batch, rules, actions);
    var s := Run(Init(clock), batch, rules, actions);
    PassedIsExact(s.history, rules, key);
    SlipsExactly(s.history, rules, key);
    if LateCharge(s.history, key) {
      var i, j :| 0 <= i < j < |s.history| && key in s.history[i].removed && key in s.history[j].charged;
      LateChargeStraddles(s, rules, key, i, j);
    }
  }

  /** A slip comes after the maximum of attempts. */
  lemma {:induction false} SlipsNeedAttempts(history: seq<Evaluation>, key: Key, maximum: int)
    requires Slips(history, key, maximum) > 0
    ensures Attempts(history, key) > maximum
  {
    var before := history[..|history| - 1];
    if Slips(before, key, maximum) > 0 {
      SlipsNeedAttempts(before, key, maximum);
    }
  }

  predicate ChargedFor(e: Evaluation, policy: Text, subject: SubjectDigest, windowMs: int)
    requires windowMs > 0
  {
    Key(policy, subject.axis, subject, WindowStart(e.at, windowMs)) in e.charged
  }

  /** Requests let through for a subject at a time in `[from, to)`. */
  function AdmittedBetween(
      history: seq<Evaluation>, policy: Text, subject: SubjectDigest, windowMs: int, from: int, to: int): nat
    requires windowMs > 0
  {
    if |history| == 0 then 0
    else
      var last := history[|history| - 1];
      AdmittedBetween(history[..|history| - 1], policy, subject, windowMs, from, to)
      + (if last.allowed && from <= last.at < to && ChargedFor(last, policy, subject, windowMs) then 1 else 0)
  }

  /** An interval one window long meets at most two fixed windows. */
  lemma TwoWindows(from: int, at: int, w: int)
    requires w > 0 && from <= at < from + w
    ensures WindowStart(at, w) == WindowStart(from, w) || WindowStart(at, w) == WindowStart(from, w) + w
  {
    var q := from / w;
    WindowHolds(from, w);
    if at < q * w + w {
      assert (q + 1) * w == q * w + w;
      QuotientUnique(at, w, q);
    } else {
      assert (q + 1) * w == q * w + w && (q + 2) * w == q * w + 2 * w;
      QuotientUnique(at, w, q + 1);
    }
  }

  lemma {:induction false} IntervalSplits(
      history: seq<Evaluation>, policy: Text, subject: SubjectDigest, w: int, from: int)
    requires w > 0
    ensures AdmittedBetween(history, policy, subject, w, from, from + w)
         <= Admitted(history, Key(policy, subject.axis, subject, WindowStart(from, w)))
          + Admitted(history, Key(policy, subject.axis, subject, WindowStart(from, w) + w))
  {
    if |history| > 0 {
      IntervalSplits(history[..|history| - 1], policy, subject, w, from);
      var last := history[|history| - 1];
      if from <= last.at < from + w {
        TwoWindows(from, last.at, w);
      }
    }
  }

  /**
   In any interval as long as the window, at most twice the maximum is admitted, and the slips
   of its two windows, of which there are none where nothing was charged late.
   */
  lemma IntervalBound(
      clock: int, batch: BatchSize, rules: Rules, actions: seq<Action>,
      policy: Text, subject: SubjectDigest, from: int)
    requires rules(policy, subject.axis).windowMs > 0 && rules(policy, subject.axis).maximumAttempts >= 0
    ensures var rule := rules(policy, subject.axis);
            var history := Run(Init(clock), batch, rules, actions).history;
            var start := WindowStart(from, rule.windowMs);
            AdmittedBetween(history, policy, subject, rule.windowMs, from, from + rule.windowMs)
            <= 2 * rule.maximumAttempts
             + Slips(history, Key(policy, subject.axis, subject, start), rule.maximumAttempts)
             + Slips(history, Key(policy, subject.axis, subject, start + rule.windowMs), rule.maximumAttempts)
    ensures var rule := rules(policy, subject.axis);
            var history := Run(Init(clock), batch, rules, actions).history;
            var start := WindowStart(from, rule.windowMs);
            && !LateCharge(history, Key(policy, subject.axis, subject, start))
            && !LateCharge(history, Key(policy, subject.axis, subject, start + rule.windowMs)) ==>
              AdmittedBetween(history, policy, subject, rule.windowMs, from, from + rule.windowMs)
              <= 2 * rule.maximumAttempts
  {
    var rule := rules(policy, subject.axis);
    var start := WindowStart(from, rule.windowMs);
    var history := Run(Init(clock), batch, rules, actions).history;
    IntervalSplits(history, policy, subject, rule.windowMs, from);
    WindowBound(clock, batch, rules, actions, Key(policy, subject.axis, subject, start));
    WindowBound(clock, batch, rules, actions, Key(policy, subject.axis, subject, start + rule.windowMs));
  }

  // ---------------------------------------------------------------- retry time

  lemma {:induction false} LongestWaitIsMaximum(denied: seq<Limit>, now: int)
    requires |denied| > 0 && Windowed(denied)
    ensures forall i :: 0 <= i < |denied| ==> CeilSeconds(Expiry(denied[i], now) - now) <= LongestWait(denied, now)
    ensures exists i :: 0 <= i < |denied| && CeilSeconds(Expiry(denied[i], now) - now) == LongestWait(denied, now)
  {
    var rest := denied[1..];
    assert forall i :: 0 < i < |denied| ==> denied[i] == rest[i - 1];
    assert CeilSeconds(Expiry(denied[0], now) - now) <= LongestWait(denied, now);
    if |denied| > 1 {
      LongestWaitIsMaximum(rest, now);
      var i :| 0 <= i < |rest| && CeilSeconds(Expiry(rest[i], now) - now) == LongestWait(rest, now);
      assert denied[i + 1] == rest[i];
    }
  }

  /**
   The retry time of a denial is the least whole number of seconds after which every denied
   bucket has expired. It lies in 1..86400 and neither clamp ever changes it.
   */
  lemma RetryIsLeast(denied: seq<Limit>, now: int)
    requires |denied| > 0 && Windowed(denied) && forall limit <- denied :: ValidLimit(limit)
    ensures var decision := Decide(denied, now);
            && decision.Denied?
            && decision.retryAfterSeconds == LongestWait(denied, now)
            && 1 <= decision.retryAfterSeconds <= 86_400
            && (forall limit <- denied :: Expiry(limit, now) <= now + 1_000 * decision.retryAfterSeconds)
            && (forall sooner: int :: sooner < decision.retryAfterSeconds ==>
                  exists i :: 0 <= i < |denied| && Expiry(denied[i], now) > now + 1_000 * sooner)
  {
    LongestWaitIsMaximum(denied, now);
    var longest := LongestWait(denied, now);
    forall i | 0 <= i < |denied|
      ensures 1 <= CeilSeconds(Expiry(denied[i], now) - now) <= 86_400
      ensures Expiry(denied[i], now) <= now + 1_000 * longest
    {
      assert denied[i] in denied;
      WindowHolds(now, denied[i].windowMs);
    }
    var i :| 0 <= i < |denied| && CeilSeconds(Expiry(denied[i], now) - now) == longest;
    forall sooner: int | sooner < longest
      ensures exists j :: 0 <= j < |denied| && Expiry(denied[j], now) > now + 1_000 * sooner
    {
      assert Expiry(denied[i], now) > now + 1_000 * sooner;
    }
  }
}
