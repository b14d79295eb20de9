/**
 Buckets and the requests behind them: two limits share a bucket exactly when they are of one
 policy, one subject and one window, so what a bucket counts are the attempts of its subject,
 and nobody else's.
 */
module AbuseSubjects {
  import opened Wrappers
  import opened Text
  import opened KeyedSort
  import opened AbuseProtection
  import opened AbuseLimits
  import opened AbuseRuns
  import opened AbuseTheorems

  // ---------------------------------------------------------------- buckets

  lemma StartsAgree(a: int, b: int, w: int)
    requires w > 0
    ensures WindowStart(a, w) == WindowStart(b, w) <==> a / w == b / w
  {
    var p, q := a / w, b / w;
    if p < q {
      Scaled(p + 1, q, w);
    } else if q < p {
      Scaled(q + 1, p, w);
    }
  }

  /**
   Two limits of one axis and window length share a bucket exactly when their policies agree,
   their subjects agree as UTF-8, and their times lie in one window counted from the epoch.
   */
  lemma BucketsAgreeIff(policy: Text, a: Limit, now: int, other: Text, b: Limit, later: int)
    requires a.windowMs > 0 && a.axis == b.axis && a.windowMs == b.windowMs
    ensures KeyFor(policy, a, now) == KeyFor(other, b, later) <==>
              policy == other && Scrub(a.subject) == Scrub(b.subject) && now / a.windowMs == later / a.windowMs
  {
    StartsAgree(now, later, a.windowMs);
  }

  /** Different axes never share a bucket. */
  lemma AxesKeepApart(policy: Text, a: Limit, now: int, other: Text, b: Limit, later: int)
    requires a.windowMs > 0 && b.windowMs > 0 && a.axis != b.axis
    ensures KeyFor(policy, a, now) != KeyFor(other, b, later)
  {
  }

  // ---------------------------------------------------------------- attempts by subject

  /** One subject under one policy and axis, in one window counted from the epoch. */
  datatype Asker = Asker(policy: Text, axis: Axis, subject: Text, window: int)

  /** The evaluation was asked to charge this subject, at a time in this window. */
  ghost predicate Asks(e: Evaluation, asker: Asker) {
    && e.policy == asker.policy
    && exists limit <- e.limits ::
         && limit.axis == asker.axis && Scrub(limit.subject) == Scrub(asker.subject)
         && limit.windowMs > 0 && e.at / limit.windowMs == asker.window
  }

  /** The attempts of a subject in a window, counted from the requests of committed evaluations. */
  ghost function AttemptsBy(history: seq<Evaluation>, asker: Asker): nat {
    if |history| == 0 then 0
    else
      AttemptsBy(history[..|history| - 1], asker) + One(Asks(history[|history| - 1], asker))
  }

  /** An evaluation charges the buckets of its own request, under the rules. */
  predicate Faithful(e: Evaluation, rules: Rules) {
    && Windowed(e.limits) && e.charged == KeysOf(e.policy, e.limits, e.at)
    && forall limit <- e.limits :: rules(e.policy, limit.axis) == Rule(limit.maximumAttempts, limit.windowMs)
  }

  ghost predicate AllFaithful(history: seq<Evaluation>, rules: Rules) {
    forall e <- history :: Faithful(e, rules)
  }

  lemma FaithfulStep(s: State, batch: BatchSize, rules: Rules, a: Action)
    requires TxsInv(s, rules) && AllFaithful(s.history, rules)
    ensures AllFaithful(Apply(s, batch, rules, a).history, rules)
  {
    if a.Commit? && a.id in s.txs && Finished(s.txs[a.id]) {
      assert TxInv(s, rules, s.txs[a.id]);
    }
  }

  lemma {:induction false} FaithfulRun(s: State, batch: BatchSize, rules: Rules, actions: seq<Action>)
    requires Inv(s, rules) && AllFaithful(s.history, rules)
    ensures AllFaithful(Run(s, batch, rules, actions).history, rules)
    decreases |actions|
  {
    if |actions| > 0 {
      FaithfulStep(s, batch, rules, actions[0]);
      InvStep(s, batch, rules, actions[0]);
      FaithfulRun(Apply(s, batch, rules, actions[0]), batch, rules, actions[1..]);
    }
  }

  /** An evaluation charged a limit's bucket exactly if it was asked to charge its subject in its window. */
  lemma ChargedIffAsked(e: Evaluation, rules: Rules, policy: Text, limit: Limit, now: int)
    requires Faithful(e, rules) && limit.windowMs > 0
    requires rules(policy, limit.axis).windowMs == limit.windowMs
    ensures KeyFor(policy, limit, now) in e.charged
       <==> Asks(e, Asker(policy, limit.axis, limit.subject, now / limit.windowMs))
  {
    var key, asker := KeyFor(policy, limit, now), Asker(policy, limit.axis, limit.subject, now / limit.windowMs);
    if key in e.charged {
      var i :| 0 <= i < |e.limits| && KeyFor(e.policy, e.limits[i], e.at) == key;
      assert e.limits[i] in e.limits;
      BucketsAgreeIff(e.policy, e.limits[i], e.at, policy, limit, now);
    }
    if Asks(e, asker) {
      var l :| l in e.limits && l.axis == asker.axis && Scrub(l.subject) == Scrub(asker.subject)
        && l.windowMs > 0 && e.at / l.windowMs == asker.window;
      var i :| 0 <= i < |e.limits| && e.limits[i] == l;
      BucketsAgreeIff(e.policy, l, e.at, policy, limit, now);
      assert KeyFor(e.policy, e.limits[i], e.at) in KeysOf(e.policy, e.limits, e.at);
    }
  }

  lemma {:induction false} AttemptsAreAsked(history: seq<Evaluation>, rules: Rules, policy: Text, limit: Limit, now: int)
    requires AllFaithful(history, rules) && limit.windowMs > 0
    requires rules(policy, limit.axis).windowMs == limit.windowMs
    ensures Attempts(history, KeyFor(policy, limit, now))
         == AttemptsBy(history, Asker(policy, limit.axis, limit.subject, now / limit.windowMs))
  {
    if |history| > 0 {
      var n := |history| - 1;
      assert forall e <- history[..n] :: e in history;
      AttemptsAreAsked(history[..n], rules, policy, limit, now);
      assert history[n] in history;
      ChargedIffAsked(history[n], rules, policy, limit, now);
    }
  }

  /**
   In every reachable state the bucket of a limit holds the number of attempts its own subject
   has made in its window, counted from the requests, exactly when no cleanup has removed it
   since the window ended: always while the window is not over.
   */
  lemma CountsAreTheSubjects(clock: int, batch: BatchSize, rules: Rules, actions: seq<Action>,
                             policy: Text, limit: Limit, now: int)
    requires limit.windowMs > 0 && rules(policy, limit.axis) == Rule(limit.maximumAttempts, limit.windowMs)
    ensures var s := Run(Init(clock), batch, rules, actions);
            var key := KeyFor(policy, limit, now);
            var n := AttemptsBy(s.history, Asker(policy, limit.axis, limit.subject, now / limit.windowMs));
            var count := if key in s.table then s.table[key].attemptCount else 0;
            && (count == n <==> Removals(s.history, key) == 0)
            && (s.clock < EndOf(rules, key) ==> count == n)
            && (key in s.table && count == n ==> (s.table[key].denialAudited <==> n > limit.maximumAttempts))
  {
    InitInv(clock, rules);
    FaithfulRun(Init(clock), batch, rules, actions);
    AttemptsAreAsked(Run(Init(clock), batch, rules, actions).history, rules, policy, limit, now);
    CountsAreTrue(clock, batch, rules, actions, KeyFor(policy, limit, now));
  }

  /**
   An evaluation about to commit denies an axis whose bucket no cleanup has removed exactly when
   its own subject has made the maximum of attempts in that window, counted from the requests,
   whatever anybody else has asked for.
   */
  lemma DenialsAreTheSubjects(clock: int, batch: BatchSize, rules: Rules, actions: seq<Action>, id: nat, i: nat)
    requires id in Run(Init(clock), batch, rules, actions).txs
    requires Finished(Run(Init(clock), batch, rules, actions).txs[id])
    requires i < |Run(Init(clock), batch, rules, actions).txs[id].limits|
    ensures var s := Run(Init(clock), batch, rules, actions);
            var tx := s.txs[id];
            var limit := tx.limits[i];
            Removals(s.history, KeyFor(tx.policy, limit, tx.now)) == 0 ==>
              (limit.axis in AxesOf(tx.denied) <==>
                 AttemptsBy(s.history, Asker(tx.policy, limit.axis, limit.subject, tx.now / limit.windowMs))
                 >= limit.maximumAttempts)
  {
    InitInv(clock, rules);
    InvRun(Init(clock), batch, rules, actions);
    FaithfulRun(Init(clock), batch, rules, actions);
    DecisionIsExact(clock, batch, rules, actions, id, i);
    var s := Run(Init(clock), batch, rules, actions);
    var tx := s.txs[id];
    assert TxInv(s, rules, tx) && tx.limits[i] in tx.limits;
    AttemptsAreAsked(s.history, rules, tx.policy, tx.limits[i], tx.now);
  }

  /** Committing an evaluation that does not ask for a subject changes neither its attempts nor its row. */
  lemma OthersDoNotCount(clock: int, batch: BatchSize, rules: Rules, actions: seq<Action>, id: nat,
                         policy: Text, limit: Limit, now: int)
    requires limit.windowMs > 0 && rules(policy, limit.axis) == Rule(limit.maximumAttempts, limit.windowMs)
    requires id in Run(Init(clock), batch, rules, actions).txs
    requires Finished(Run(Init(clock), batch, rules, actions).txs[id])
    ensures var s := Run(Init(clock), batch, rules, actions);
            var t := Apply(s, batch, rules, Commit(id));
            var key := KeyFor(policy, limit, now);
            var asker := Asker(policy, limit.axis, limit.subject, now / limit.windowMs);
            && |t.history| == |s.history| + 1
            && (!Asks(t.history[|s.history|], asker) ==>
                  && AttemptsBy(t.history, asker) == AttemptsBy(s.history, asker)
                  && (key !in s.txs[id].removed ==>
                        && (key in t.table <==> key in s.table)
                        && (key in s.table ==> t.table[key] == s.table[key])))
  {
    InitInv(clock, rules);
    InvRun(Init(clock), batch, rules, actions);
    var s := Run(Init(clock), batch, rules, actions);
    var t := Apply(s, batch, rules, Commit(id));
    assert TxInv(s, rules, s.txs[id]);
    FaithfulRun(Init(clock), batch, rules, actions);
    FaithfulStep(s, batch, rules, Commit(id));
    var e := t.history[|s.history|];
    assert t.history == s.history + [e] && t.history[..|s.history|] == s.history;
    assert e in t.history;
    ChargedIffAsked(e, rules, policy, limit, now);
    OutcomeKeys(s, rules, s.txs[id]);
    AuditedWrites(s, rules, s.txs[id], KeyFor(policy, limit, now));
  }
}
