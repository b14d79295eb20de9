/**
 Two kinds of runs of the limiter: one evaluation alone, which is what the class does, and one
 window that admits more than its maximum.
 */
module AbuseScenarios {
  import opened Wrappers
  import opened Text
  import opened KeyedSort
  import opened AbuseProtection
  import opened AbuseLimits
  import opened AbuseRuns

  lemma {:induction false} RunConcat(s: State, batch: BatchSize, rules: Rules, first: seq<Action>, second: seq<Action>)
    ensures Run(s, batch, rules, first + second) == Run(Run(s, batch, rules, first), batch, rules, second)
    decreases |first|
  {
    if |first| == 0 {
      assert first + second == second;
    } else {
      assert (first + second)[1..] == first[1..] + second;
      RunConcat(Apply(s, batch, rules, first[0]), batch, rules, first[1..], second);
    }
  }

  lemma RunOne(s: State, batch: BatchSize, rules: Rules, a: Action)
    ensures Run(s, batch, rules, [a]) == Apply(s, batch, rules, a)
  {
    assert [a][1..] == [];
    assert Run(Apply(s, batch, rules, a), batch, rules, []) == Apply(s, batch, rules, a);
  }

  lemma RunThen(s: State, batch: BatchSize, rules: Rules, actions: seq<Action>, a: Action)
    ensures Run(s, batch, rules, actions + [a]) == Apply(Run(s, batch, rules, actions), batch, rules, a)
  {
    RunConcat(s, batch, rules, actions, [a]);
    RunOne(Run(s, batch, rules, actions), batch, rules, a);
  }

  /** Some run leads from `s` to `t`. */
  ghost predicate Reaches(s: State, batch: BatchSize, rules: Rules, t: State) {
    exists actions: seq<Action> :: Run(s, batch, rules, actions) == t
  }

  lemma ReachesItself(s: State, batch: BatchSize, rules: Rules)
    ensures Reaches(s, batch, rules, s)
  {
    assert Run(s, batch, rules, []) == s;
  }

  lemma ReachesNext(s: State, batch: BatchSize, rules: Rules, t: State, a: Action)
    requires Reaches(s, batch, rules, t)
    ensures Reaches(s, batch, rules, Apply(t, batch, rules, a))
  {
    var actions :| Run(s, batch, rules, actions) == t;
    RunThen(s, batch, rules, actions, a);
  }

  // ---------------------------------------------------------------- one evaluation alone

  /** `n` charges in a row. */
  function Charges(id: nat, n: nat): seq<Action> {
    if n == 0 then [] else Charges(id, n - 1) + [ChargeNext(id)]
  }

  /** `n` deletions in a row. */
  function Deletions(id: nat, n: nat): seq<Action> {
    if n == 0 then [] else Deletions(id, n - 1) + [SweepNext(id, false)]
  }

  /** Clean up, charge every axis, commit. */
  function Whole(id: nat, plan: seq<Key>, axes: nat): seq<Action> {
    [PlanSweep(id, plan)] + Deletions(id, |plan|) + Charges(id, axes) + [Commit(id)]
  }

  /** With the axes that are left charged too, the table and the denials would be `end`. */
  ghost predicate ChargesTo(table: Table, tx: Tx, end: (Table, seq<Limit>)) {
    && Windowed(tx.limits) && Swept(tx) && tx.charged <= |tx.limits|
    && Charge(View(table, tx), tx.policy, tx.limits[tx.charged..], tx.denied, tx.now) == end
  }

  /** The rows written so far are those the charging function has changed. */
  ghost predicate ChargedAlone(table: Table, tx: Tx) {
    Windowed(tx.limits) && ChargesTo(table, tx, Charge(table - tx.removed, tx.policy, tx.limits, [], tx.now))
  }

  lemma ChargeAlone(table: Table, tx: Tx, end: (Table, seq<Limit>))
    requires ChargesTo(table, tx, end) && tx.charged < |tx.limits| && Wanted(tx) !in tx.removed
    ensures ChargesTo(table, Charged(table, tx), end)
  {
    var next, limit := Charged(table, tx), tx.limits[tx.charged];
    var rest := tx.limits[tx.charged..];
    assert rest[0] == limit && rest[1..] == tx.limits[next.charged..];
    assert View(table, next) == Upsert(View(table, tx), Wanted(tx), Expiry(limit, tx.now));
  }

  /** The audit changes only written rows, so it may be done on them alone. */
  lemma {:induction false} AuditOverlay(
      base: Table, written: Table, policy: Text, denied: seq<Limit>, audits: seq<Key>, now: int)
    requires Windowed(denied) && forall k <- KeysOf(policy, denied, now) :: k in written
    ensures Audit(base + written, policy, denied, audits, now).0 == base + Audit(written, policy, denied, audits, now).0
    ensures Audit(base + written, policy, denied, audits, now).1 == Audit(written, policy, denied, audits, now).1
    decreases |denied|
  {
    if |denied| > 0 {
      var key := KeyFor(policy, denied[0], now);
      assert key in KeysOf(policy, denied, now);
      var flagged := written[key := written[key].(denialAudited := true)];
      assert base + flagged == (base + written)[key := written[key].(denialAudited := true)];
      forall k | k in KeysOf(policy, denied[1..], now)
        ensures k in written
      {
        var i :| 0 <= i < |denied[1..]| && KeyFor(policy, denied[1..][i], now) == k;
        assert denied[i + 1] == denied[1..][i];
        assert k in KeysOf(policy, denied, now);
      }
      AuditOverlay(base, if written[key].denialAudited then written else flagged, policy, denied[1..],
                   if written[key].denialAudited then audits else audits + [key], now);
    }
  }

  /** A transaction after `n` more charges with nobody about. */
  function ChargedTimes(table: Table, tx: Tx, n: nat): Tx
    requires Windowed(tx.limits) && Swept(tx) && tx.charged + n <= |tx.limits|
    ensures var next := ChargedTimes(table, tx, n);
            next == tx.(charged := tx.charged + n, written := next.written, denied := next.denied)
  {
    if n == 0 then tx else Charged(table, ChargedTimes(table, tx, n - 1))
  }

  /** Nothing it is going to charge is among what it has removed. */
  ghost predicate SweptElsewhere(tx: Tx)
    requires Windowed(tx.limits)
  {
    forall i :: 0 <= i < |tx.limits| ==> KeyFor(tx.policy, tx.limits[i], tx.now) !in tx.removed
  }

  lemma StillCharging(tx: Tx, last: Tx)
    requires Windowed(tx.limits) && Swept(tx) && last.charged < |tx.limits|
    requires last == tx.(charged := last.charged, written := last.written, denied := last.denied)
    ensures Charging(last)
  {
    assert tx.limits[last.charged] in tx.limits;
  }

  lemma WantedElsewhere(tx: Tx, last: Tx)
    requires Windowed(tx.limits) && SweptElsewhere(tx) && Charging(last)
    requires last == tx.(charged := last.charged, written := last.written, denied := last.denied)
    ensures Wanted(last) !in last.removed
  {
  }

  lemma OneMoreAlone(table: Table, tx: Tx, last: Tx, end: (Table, seq<Limit>))
    requires ChargesTo(table, last, end) && last.charged < |last.limits|
    requires last == tx.(charged := last.charged, written := last.written, denied := last.denied)
    requires SweptElsewhere(tx)
    ensures Charging(last) && ChargesTo(table, Charged(table, last), end)
  {
    StillCharging(tx, last);
    WantedElsewhere(tx, last);
    ChargeAlone(table, last, end);
  }

  lemma {:induction false} TimesAlone(table: Table, tx: Tx, n: nat, end: (Table, seq<Limit>))
    requires ChargesTo(table, tx, end) && SweptElsewhere(tx) && tx.charged + n <= |tx.limits|
    ensures ChargesTo(table, ChargedTimes(table, tx, n), end)
  {
    if n > 0 {
      TimesAlone(table, tx, n - 1, end);
      OneMoreAlone(table, tx, ChargedTimes(table, tx, n - 1), end);
    }
  }

  lemma ChargeHappens(s: State, batch: BatchSize, rules: Rules, id: nat, tx: Tx)
    requires Charging(tx)
    ensures Apply(s.(txs := map[id := tx]), batch, rules, ChargeNext(id)) == s.(txs := map[id := Charged(s.table, tx)])
  {
  }

  lemma {:induction false} ChargesAlone(s: State, batch: BatchSize, rules: Rules, id: nat, tx: Tx, n: nat)
    requires s.txs == map[id := tx] && Windowed(tx.limits) && Swept(tx) && tx.charged + n <= |tx.limits|
    ensures Run(s, batch, rules, Charges(id, n)) == s.(txs := map[id := ChargedTimes(s.table, tx, n)])
  {
    if n > 0 {
      ChargesAlone(s, batch, rules, id, tx, n - 1);
      RunThen(s, batch, rules, Charges(id, n - 1), ChargeNext(id));
      var last := ChargedTimes(s.table, tx, n - 1);
      StillCharging(tx, last);
      ChargeHappens(s, batch, rules, id, last);
    }
  }

  lemma NothingYet(s: State, rules: Rules, tx: Tx)
    requires TxInv(s, rules, tx) && !tx.planned
    ensures tx.charged == 0 && tx.written == map[] && tx.denied == [] && tx.plan == [] && tx.removed == {}
  {
    assert tx.limits[..0] == [];
    assert KeysOf(tx.policy, [], tx.now) == {};
  }

  /** After `n` deletions by the only evaluation in flight. */
  function DeletedTimes(tx: Tx, plan: seq<Key>, n: nat): Tx
    requires n <= |plan|
  {
    tx.(planned := true, plan := plan[n..], removed := Members(plan[..n]))
  }

  lemma DeletesOne(s: State, batch: BatchSize, rules: Rules, id: nat, tx: Tx, plan: seq<Key>, n: nat)
    requires n < |plan| && forall key <- plan :: key in s.table
    ensures Apply(s.(txs := map[id := DeletedTimes(tx, plan, n)]), batch, rules, SweepNext(id, false))
         == s.(txs := map[id := DeletedTimes(tx, plan, n + 1)])
  {
    var before := DeletedTimes(tx, plan, n);
    assert before.plan[0] == plan[n] && before.plan[1..] == plan[n + 1..] && plan[n] in plan;
    assert plan[..n + 1] == plan[..n] + [plan[n]];
    assert Members(plan[..n + 1]) == Members(plan[..n]) + {plan[n]};
  }

  lemma {:induction false} DeletesAlone(s: State, batch: BatchSize, rules: Rules, id: nat, tx: Tx, plan: seq<Key>, n: nat)
    requires n <= |plan| && forall key <- plan :: key in s.table
    ensures Run(s.(txs := map[id := DeletedTimes(tx, plan, 0)]), batch, rules, Deletions(id, n))
         == s.(txs := map[id := DeletedTimes(tx, plan, n)])
  {
    var start := s.(txs := map[id := DeletedTimes(tx, plan, 0)]);
    if n > 0 {
      DeletesAlone(s, batch, rules, id, tx, plan, n - 1);
      RunThen(start, batch, rules, Deletions(id, n - 1), SweepNext(id, false));
      DeletesOne(s, batch, rules, id, tx, plan, n - 1);
    }
  }

  lemma SweepsElsewhere(s: State, rules: Rules, tx: Tx)
    requires RowsInv(s, rules) && TxInv(s, rules, tx)
    ensures SweptElsewhere(tx)
  {
    forall i | 0 <= i < |tx.limits|
      ensures KeyFor(tx.policy, tx.limits[i], tx.now) !in tx.removed
    {
      var key := KeyFor(tx.policy, tx.limits[i], tx.now);
      assert tx.limits[i] in tx.limits;
      WindowHolds(tx.now, tx.limits[i].windowMs);
      assert RowInv(s, rules, key);
    }
  }

  /** From `s` to `t`, one evaluation has done what the class does with these limits at this time. */
  predicate AsEvaluate(s: State, t: State, policy: Text, limits: seq<Limit>, removed: set<Key>, now: int)
    requires Windowed(limits)
  {
    var (table, audits, decision) := Evaluate(s.table, policy, limits, removed, s.audits, now);
    && t.table == table && t.audits == audits && t.txs == map[]
    && |t.history| == |s.history| + 1 && t.history[|s.history|].allowed == decision.Allowed?
  }

  /** All axes charged alone, and the rows to be audited among the written ones. */
  ghost predicate ReadyAlone(table: Table, tx: Tx) {
    ChargedAlone(table, tx) && Finished(tx) && forall k <- KeysOf(tx.policy, tx.denied, tx.now) :: k in tx.written
  }

  lemma ChargedIsReady(s: State, rules: Rules, tx: Tx)
    requires TxInv(s, rules, tx) && ChargedAlone(s.table, tx) && tx.charged == |tx.limits|
    ensures ReadyAlone(s.table, tx)
  {
    assert tx.limits[tx.charged..] == [];
    DeniedAreLimits(s.table - tx.removed, tx.policy, tx.limits, [], tx.now);
    forall k | k in KeysOf(tx.policy, tx.denied, tx.now)
      ensures k in tx.written
    {
      AuditedWrites(s, rules, tx, k);
    }
  }

  /** The commit of rows charged alone. */
  lemma CommitAlone(s: State, id: nat, tx: Tx)
    requires ReadyAlone(s.table, tx) && s.txs == map[id := tx]
    ensures AsEvaluate(s, ApplyCommit(s, id), tx.policy, tx.limits, tx.removed, tx.now)
  {
    assert tx.limits[tx.charged..] == [];
    assert s.txs - {id} == map[];
    AuditOverlay(s.table - tx.removed, tx.written, tx.policy, tx.denied, s.audits, tx.now);
  }

  lemma WholeRun(s: State, batch: BatchSize, rules: Rules, id: nat, plan: seq<Key>, n: nat)
    ensures Run(s, batch, rules, Whole(id, plan, n))
         == Apply(Run(Run(Apply(s, batch, rules, PlanSweep(id, plan)), batch, rules, Deletions(id, |plan|)),
                      batch, rules, Charges(id, n)), batch, rules, Commit(id))
  {
    var first := [PlanSweep(id, plan)];
    RunOne(s, batch, rules, PlanSweep(id, plan));
    RunConcat(s, batch, rules, first, Deletions(id, |plan|));
    RunConcat(s, batch, rules, first + Deletions(id, |plan|), Charges(id, n));
    RunThen(s, batch, rules, first + Deletions(id, |plan|) + Charges(id, n), Commit(id));
  }

  /** The evaluation after its cleanup. */
  function AfterSweep(tx: Tx, plan: seq<Key>): Tx {
    tx.(planned := true, plan := [], removed := Members(plan))
  }

  lemma PlanAlone(s: State, batch: BatchSize, rules: Rules, id: nat, tx: Tx, plan: seq<Key>)
    requires s.txs == map[id := tx] && tx.removed == {} && MayPlan(s, batch, id, plan)
    ensures Apply(s, batch, rules, PlanSweep(id, plan)) == s.(txs := map[id := DeletedTimes(tx, plan, 0)])
  {
    assert plan[0..] == plan && Members(plan[..0]) == {};
    assert s.txs[id := DeletedTimes(tx, plan, 0)] == map[id := DeletedTimes(tx, plan, 0)];
  }

  /** The cleanup of the only evaluation in flight. */
  lemma SweepAlone(s: State, batch: BatchSize, rules: Rules, id: nat, tx: Tx, plan: seq<Key>)
    requires s.txs == map[id := tx] && tx.removed == {} && MayPlan(s, batch, id, plan)
    ensures Run(Apply(s, batch, rules, PlanSweep(id, plan)), batch, rules, Deletions(id, |plan|))
         == s.(txs := map[id := AfterSweep(tx, plan)])
  {
    PlanAlone(s, batch, rules, id, tx, plan);
    forall key | key in plan
      ensures key in s.table
    {
      assert key in Members(plan);
    }
    DeletesAlone(s, batch, rules, id, tx, plan, |plan|);
    assert plan[|plan|..] == [] && plan[..|plan|] == plan;
  }

  lemma SweptAlone(s: State, batch: BatchSize, rules: Rules, id: nat, tx: Tx, plan: seq<Key>)
    requires Inv(s, rules) && s.txs == map[id := tx] && MayPlan(s, batch, id, plan)
    ensures tx.removed == {} && Inv(s.(txs := map[id := AfterSweep(tx, plan)]), rules)
  {
    assert TxInv(s, rules, tx);
    InvStep(s, batch, rules, PlanSweep(id, plan));
    InvRun(Apply(s, batch, rules, PlanSweep(id, plan)), batch, rules, Deletions(id, |plan|));
    SweepAlone(s, batch, rules, id, tx, plan);
  }

  lemma SweptCharges(s: State, rules: Rules, id: nat, tx: Tx, plan: seq<Key>)
    requires TxInv(s, rules, tx) && !tx.planned
    requires Inv(s.(txs := map[id := AfterSweep(tx, plan)]), rules)
    ensures var next := AfterSweep(tx, plan);
            Windowed(next.limits) && ChargedAlone(s.table, next) && SweptElsewhere(next) && next.charged == 0
  {
    var next := AfterSweep(tx, plan);
    var after := s.(txs := map[id := next]);
    NothingYet(s, rules, tx);
    assert TxInv(after, rules, after.txs[id]);
    SweepsElsewhere(after, rules, next);
    assert s.table - next.removed + map[] == s.table - next.removed;
    assert next.limits[0..] == next.limits;
  }

  lemma AloneInv(s: State, batch: BatchSize, rules: Rules, id: nat, tx: Tx, n: nat)
    requires Inv(s, rules) && s.txs == map[id := tx] && Windowed(tx.limits) && Swept(tx) && tx.charged + n <= |tx.limits|
    ensures var last := ChargedTimes(s.table, tx, n);
            TxInv(s.(txs := map[id := last]), rules, last)
  {
    InvRun(s, batch, rules, Charges(id, n));
    ChargesAlone(s, batch, rules, id, tx, n);
    var t := s.(txs := map[id := ChargedTimes(s.table, tx, n)]);
    assert TxInv(t, rules, t.txs[id]);
  }

  lemma AloneCharged(table: Table, next: Tx)
    requires ChargedAlone(table, next) && SweptElsewhere(next) && next.charged == 0
    ensures ChargedAlone(table, ChargedTimes(table, next, |next.limits|))
  {
    TimesAlone(table, next, |next.limits|, Charge(table - next.removed, next.policy, next.limits, [], next.now));
  }

  lemma AloneReady(s: State, rules: Rules, id: nat, next: Tx)
    requires ChargedAlone(s.table, next) && SweptElsewhere(next) && next.charged == 0
    requires var last := ChargedTimes(s.table, next, |next.limits|); TxInv(s.(txs := map[id := last]), rules, last)
    ensures ReadyAlone(s.table, ChargedTimes(s.table, next, |next.limits|))
  {
    AloneCharged(s.table, next);
    var last := ChargedTimes(s.table, next, |next.limits|);
    ChargedIsReady(s.(txs := map[id := last]), rules, last);
  }

  /** Swept and charged alone, up to the commit. */
  lemma AloneFacts(s: State, batch: BatchSize, rules: Rules, id: nat, tx: Tx, plan: seq<Key>, next: Tx)
    requires Inv(s, rules) && s.txs == map[id := tx] && MayPlan(s, batch, id, plan) && next == AfterSweep(tx, plan)
    ensures Windowed(next.limits) && next.charged == 0
    ensures ReadyAlone(s.table, ChargedTimes(s.table, next, |next.limits|))
  {
    SweptAlone(s, batch, rules, id, tx, plan);
    assert TxInv(s, rules, tx);
    SweptCharges(s, rules, id, tx, plan);
    AloneInv(s.(txs := map[id := next]), batch, rules, id, next, |next.limits|);
    AloneReady(s, rules, id, next);
  }

  lemma AloneRun(s: State, batch: BatchSize, rules: Rules, id: nat, tx: Tx, plan: seq<Key>, next: Tx, last: Tx)
    requires s.txs == map[id := tx] && tx.removed == {} && MayPlan(s, batch, id, plan)
    requires next == AfterSweep(tx, plan) && Windowed(next.limits) && next.charged == 0
    requires last == ChargedTimes(s.table, next, |next.limits|)
    ensures Run(s, batch, rules, Whole(id, plan, |next.limits|)) == ApplyCommit(s.(txs := map[id := last]), id)
  {
    SweepAlone(s, batch, rules, id, tx, plan);
    ChargesAlone(s.(txs := map[id := next]), batch, rules, id, next, |next.limits|);
    WholeRun(s, batch, rules, id, plan, |next.limits|);
  }

  lemma AloneCommits(s: State, batch: BatchSize, rules: Rules, id: nat, tx: Tx, plan: seq<Key>, next: Tx)
    requires Inv(s, rules) && s.txs == map[id := tx] && MayPlan(s, batch, id, plan) && next == AfterSweep(tx, plan)
    ensures Windowed(next.limits) && next.charged == 0 && tx.removed == {}
    ensures var last := ChargedTimes(s.table, next, |next.limits|);
            AsEvaluate(s.(txs := map[id := last]), ApplyCommit(s.(txs := map[id := last]), id),
                       next.policy, next.limits, next.removed, next.now)
  {
    AloneFacts(s, batch, rules, id, tx, plan, next);
    assert TxInv(s, rules, tx);
    var last := ChargedTimes(s.table, next, |next.limits|);
    CommitAlone(s.(txs := map[id := last]), id, last);
  }

  /**
   An evaluation that nothing interrupts commits exactly the table, the audit events and the
   decision of `Evaluate`, which is what the class computes, for a sweep the class may make.
   */
  lemma UndisturbedIsEvaluate(s: State, batch: BatchSize, rules: Rules, id: nat, tx: Tx, plan: seq<Key>)
    requires Inv(s, rules) && s.txs == map[id := tx] && MayPlan(s, batch, id, plan)
    ensures Windowed(tx.limits) && IsSweep(s.table, tx.now, batch, Members(plan))
    ensures AsEvaluate(s, Run(s, batch, rules, Whole(id, plan, |tx.limits|)),
                       tx.policy, tx.limits, Members(plan), tx.now)
  {
    var next := AfterSweep(tx, plan);
    AloneCommits(s, batch, rules, id, tx, plan, next);
    AloneRun(s, batch, rules, id, tx, plan, next, ChargedTimes(s.table, next, |next.limits|));
  }

  // ---------------------------------------------------------------- evaluations of one axis

  /** An evaluation that has begun. */
  function Fresh(policy: Text, limits: seq<Limit>, now: int): Tx {
    Tx(policy, limits, now, false, [], {}, 0, map[], [])
  }

  predicate AscendingAxes(limits: seq<Limit>) {
    forall i, j :: 0 <= i < j < |limits| ==> Less(AxisName(limits[i].axis), AxisName(limits[j].axis))
  }

  /** Limits in the order of their axes are normalised as they are. */
  lemma AscendingIsNormalized(limits: seq<Limit>)
    requires ValidLimits(limits) && AscendingAxes(limits)
    ensures NormalizedLimits(limits) == Some(limits)
  {
    var named := Named(limits);
    NamedDistinct(limits);
    SortAscending(named);
    SortKeeps(named);
    AscendingUnique(SortByKey(named), named);
    assert Unnamed(named) == limits;
  }

  /** The request for these limits is accepted, and follows the rules. */
  predicate Acceptable(rules: Rules, policy: Text, limits: seq<Limit>) {
    && ValidPolicy(policy) && ValidLimits(limits) && AscendingAxes(limits)
    && Conforms(Request(policy, [99], limits), rules)
  }

  lemma Begins(s: State, batch: BatchSize, rules: Rules, id: nat, policy: Text, limits: seq<Limit>)
    requires id !in s.txs && Acceptable(rules, policy, limits)
    ensures Apply(s, batch, rules, Begin(id, Request(policy, [99], limits)))
         == s.(txs := s.txs[id := Fresh(policy, limits, s.clock)])
  {
    AscendingIsNormalized(limits);
  }

  lemma Plans(s: State, batch: BatchSize, rules: Rules, id: nat, tx: Tx, plan: seq<Key>)
    requires id in s.txs && s.txs[id] == tx && MayPlan(s, batch, id, plan)
    ensures Apply(s, batch, rules, PlanSweep(id, plan)) == s.(txs := s.txs[id := tx.(planned := true, plan := plan)])
  {
  }

  lemma Deletes(s: State, batch: BatchSize, rules: Rules, id: nat, tx: Tx)
    requires id in s.txs && s.txs[id] == tx && Sweeping(tx) && tx.plan[0] in s.table && Free(s.txs, id, tx.plan[0])
    ensures Apply(s, batch, rules, SweepNext(id, false))
         == s.(txs := s.txs[id := tx.(plan := tx.plan[1..], removed := tx.removed + {tx.plan[0]})])
  {
  }

  /** A row of its first attempt. */
  function FirstBucket(limit: Limit, now: int): Bucket
    requires limit.windowMs > 0
  {
    Bucket(1, Expiry(limit, now), false)
  }

  lemma ChargesFresh(s: State, batch: BatchSize, rules: Rules, id: nat, tx: Tx)
    requires id in s.txs && s.txs[id] == tx && Charging(tx) && Free(s.txs, id, Wanted(tx))
    requires Wanted(tx) !in s.table && Wanted(tx) !in tx.written && tx.limits[tx.charged].maximumAttempts >= 1
    ensures Apply(s, batch, rules, ChargeNext(id))
         == s.(txs := s.txs[id := tx.(charged := tx.charged + 1,
                 written := tx.written[Wanted(tx) := FirstBucket(tx.limits[tx.charged], tx.now)])])
  {
    assert Wanted(tx) !in View(s.table, tx);
  }

  /** The state after an evaluation of one axis into a fresh row has committed. */
  function LoneDone(s: State, id: nat, policy: Text, limit: Limit, now: int, removed: set<Key>): State
    requires limit.windowMs > 0
  {
    var key := KeyFor(policy, limit, now);
    State((s.table - removed)[key := FirstBucket(limit, now)], s.audits,
          s.history + [Evaluation(policy, [limit], {key}, {key}, removed, now, s.clock, true)], s.clock, s.txs - {id})
  }

  function LoneCharged(policy: Text, limit: Limit, now: int, removed: set<Key>): Tx
    requires limit.windowMs > 0
  {
    Fresh(policy, [limit], now).(planned := true, removed := removed, charged := 1,
      written := map[KeyFor(policy, limit, now) := FirstBucket(limit, now)])
  }

  lemma LoneCommits(s: State, id: nat, policy: Text, limit: Limit, now: int, removed: set<Key>)
    requires limit.windowMs > 0 && id in s.txs && s.txs[id] == LoneCharged(policy, limit, now, removed)
    ensures ApplyCommit(s, id) == LoneDone(s, id, policy, limit, now, removed)
  {
    var key := KeyFor(policy, limit, now);
    var tx := s.txs[id];
    assert tx.limits[0] == limit;
    assert KeysOf(policy, [limit], now) == {key};
    assert KeysOf(policy, [], now) == {};
    assert {key} - {} == {key};
    assert (s.table - removed) + map[key := FirstBucket(limit, now)]
        == (s.table - removed)[key := FirstBucket(limit, now)];
  }

  lemma LoneCharges(s: State, batch: BatchSize, rules: Rules, id: nat, policy: Text, limit: Limit, now: int, removed: set<Key>)
    requires ValidLimit(limit) && KeyFor(policy, limit, now) !in s.table
    requires id in s.txs && s.txs[id] == Fresh(policy, [limit], now).(planned := true, removed := removed)
    requires Free(s.txs, id, KeyFor(policy, limit, now))
    ensures Apply(s, batch, rules, ChargeNext(id))
         == s.(txs := s.txs[id := LoneCharged(policy, limit, now, removed)])
  {
    var tx := s.txs[id];
    assert tx.limits[0] == limit && Wanted(tx) == KeyFor(policy, limit, now);
    ChargesFresh(s, batch, rules, id, tx);
    assert map[][Wanted(tx) := FirstBucket(limit, now)] == map[Wanted(tx) := FirstBucket(limit, now)];
  }

  /** An evaluation of one axis, from the end of its cleanup on. */
  lemma LoneReaches(
      init: State, s: State, batch: BatchSize, rules: Rules, id: nat, policy: Text, limit: Limit, now: int,
      removed: set<Key>)
    requires Reaches(init, batch, rules, s) && ValidLimit(limit) && KeyFor(policy, limit, now) !in s.table
    requires id in s.txs && s.txs[id] == Fresh(policy, [limit], now).(planned := true, removed := removed)
    requires Free(s.txs, id, KeyFor(policy, limit, now))
    ensures Reaches(init, batch, rules, LoneDone(s, id, policy, limit, now, removed))
  {
    LoneCharges(s, batch, rules, id, policy, limit, now, removed);
    ReachesNext(init, batch, rules, s, ChargeNext(id));
    var charged := s.(txs := s.txs[id := LoneCharged(policy, limit, now, removed)]);
    LoneCommits(charged, id, policy, limit, now, removed);
    ReachesNext(init, batch, rules, charged, Commit(id));
    assert charged.txs - {id} == s.txs - {id};
  }

  lemma NothingExpired(s: State, batch: BatchSize, id: nat)
    requires id in s.txs && !s.txs[id].planned && ExpiredKeys(s.table, s.txs[id].now) == {}
    ensures MayPlan(s, batch, id, [])
  {
    var none: seq<Key> := [];
    assert Members(none) == {};
  }

  lemma OneExpired(s: State, batch: BatchSize, id: nat, key: Key)
    requires id in s.txs && !s.txs[id].planned && ExpiredKeys(s.table, s.txs[id].now) == {key}
    ensures MayPlan(s, batch, id, [key])
  {
    assert Members([key]) == {key};
  }

  /** The cleanup that finds nothing. */
  lemma PlanReaches(init: State, s: State, batch: BatchSize, rules: Rules, id: nat, tx: Tx)
    requires Reaches(init, batch, rules, s) && id in s.txs && s.txs[id] == tx && !tx.planned && tx.plan == []
    requires ExpiredKeys(s.table, tx.now) == {}
    ensures Reaches(init, batch, rules, s.(txs := s.txs[id := tx.(planned := true)]))
  {
    NothingExpired(s, batch, id);
    Plans(s, batch, rules, id, tx, []);
    ReachesNext(init, batch, rules, s, PlanSweep(id, []));
  }

  /** The cleanup that finds one row and deletes it. */
  lemma SweepReaches(init: State, s: State, batch: BatchSize, rules: Rules, id: nat, tx: Tx, key: Key)
    requires Reaches(init, batch, rules, s) && id in s.txs && s.txs[id] == tx && !tx.planned && tx.plan == []
    requires tx.removed == {} && ExpiredKeys(s.table, tx.now) == {key} && Free(s.txs, id, key)
    ensures Reaches(init, batch, rules, s.(txs := s.txs[id := tx.(planned := true, removed := {key})]))
  {
    OneExpired(s, batch, id, key);
    Plans(s, batch, rules, id, tx, [key]);
    ReachesNext(init, batch, rules, s, PlanSweep(id, [key]));
    var planned := s.(txs := s.txs[id := tx.(planned := true, plan := [key])]);
    assert key in ExpiredKeys(s.table, tx.now);
    Deletes(planned, batch, rules, id, planned.txs[id]);
    ReachesNext(init, batch, rules, planned, SweepNext(id, false));
    assert [key][1..] == [] && {} + {key} == {key};
  }

  lemma BeginReaches(init: State, s: State, batch: BatchSize, rules: Rules, id: nat, policy: Text, limits: seq<Limit>)
    requires Reaches(init, batch, rules, s) && id !in s.txs && Acceptable(rules, policy, limits)
    ensures Reaches(init, batch, rules, s.(txs := s.txs[id := Fresh(policy, limits, s.clock)]))
  {
    Begins(s, batch, rules, id, policy, limits);
    ReachesNext(init, batch, rules, s, Begin(id, Request(policy, [99], limits)));
  }

  lemma TickReaches(init: State, s: State, batch: BatchSize, rules: Rules, elapsed: nat)
    requires Reaches(init, batch, rules, s)
    ensures Reaches(init, batch, rules, s.(clock := s.clock + elapsed))
  {
    ReachesNext(init, batch, rules, s, Tick(elapsed));
  }

  // ---------------------------------------------------------------- a window that admits too many

  /** One attempt a minute for one network. */
  function OnePerMinute(): Limit {
    Limit(Network, 1, [65], 60_000)
  }

  function LoneRules(): Rules {
    (policy, axis) => Rule(1, 60_000)
  }

  /** The row of the minute that starts at `minute`. */
  function LoneKey(minute: int): Key {
    Key([97, 98], Network, SubjectDigest(Network, Scrub([65])), minute)
  }

  lemma LoneIsAcceptable()
    ensures Acceptable(LoneRules(), [97, 98], [OnePerMinute()]) && ValidLimit(OnePerMinute())
  {
  }

  function LoneBucket(minute: int): Bucket {
    Bucket(1, minute + 60_000, false)
  }

  lemma LoneKeys(now: int, minute: int)
    requires minute == now / 60_000 * 60_000
    ensures KeyFor([97, 98], OnePerMinute(), now) == LoneKey(minute)
    ensures FirstBucket(OnePerMinute(), now) == LoneBucket(minute)
  {
  }

  function LoneEvaluation(minute: int, removed: set<Key>, at: int, doneAt: int): Evaluation {
    Evaluation([97, 98], [OnePerMinute()], {LoneKey(minute)}, {LoneKey(minute)}, removed, at, doneAt, true)
  }

  function LoneTx(now: int): Tx {
    Fresh([97, 98], [OnePerMinute()], now)
  }

  /** One attempt of the first minute has committed. */
  function FirstDone(clock: int): State {
    State(map[LoneKey(0) := LoneBucket(0)], [], [LoneEvaluation(0, {}, 0, 0)], clock, map[])
  }

  lemma FirstReaches(batch: BatchSize)
    ensures Reaches(Init(0), batch, LoneRules(), FirstDone(0))
  {
    var init, rules := Init(0), LoneRules();
    LoneIsAcceptable();
    LoneKeys(0, 0);
    ReachesItself(init, batch, rules);
    BeginReaches(init, init, batch, rules, 0, [97, 98], [OnePerMinute()]);
    var begun := init.(txs := map[0 := LoneTx(0)]);
    assert init.txs[0 := LoneTx(0)] == begun.txs;
    PlanReaches(init, begun, batch, rules, 0, LoneTx(0));
    var swept := begun.(txs := begun.txs[0 := LoneTx(0).(planned := true)]);
    LoneReaches(init, swept, batch, rules, 0, [97, 98], OnePerMinute(), 0, {});
    assert LoneDone(swept, 0, [97, 98], OnePerMinute(), 0, {}) == FirstDone(0);
  }

  /** One more attempt has begun in that minute, and another at its end. */
  function Meeting(): State {
    FirstDone(60_000).(txs := map[1 := LoneTx(59_999)][2 := LoneTx(60_000)])
  }

  lemma MeetingReaches(batch: BatchSize)
    ensures Reaches(Init(0), batch, LoneRules(), Meeting())
  {
    var init, rules := Init(0), LoneRules();
    LoneIsAcceptable();
    FirstReaches(batch);
    TickReaches(init, FirstDone(0), batch, rules, 59_999);
    BeginReaches(init, FirstDone(59_999), batch, rules, 1, [97, 98], [OnePerMinute()]);
    var one := FirstDone(59_999).(txs := map[][1 := LoneTx(59_999)]);
    TickReaches(init, one, batch, rules, 1);
    BeginReaches(init, one.(clock := 60_000), batch, rules, 2, [97, 98], [OnePerMinute()]);
    assert map[][1 := LoneTx(59_999)] == map[1 := LoneTx(59_999)];
  }

  /** The later one has swept the first row and committed. */
  function LaterDone(): State {
    State(map[LoneKey(60_000) := LoneBucket(60_000)], [],
          [LoneEvaluation(0, {}, 0, 0)] + [LoneEvaluation(60_000, {LoneKey(0)}, 60_000, 60_000)],
          60_000, map[1 := LoneTx(59_999)])
  }

  lemma LaterReaches(batch: BatchSize)
    ensures Reaches(Init(0), batch, LoneRules(), LaterDone())
  {
    var init, rules, s := Init(0), LoneRules(), Meeting();
    LoneIsAcceptable();
    LoneKeys(60_000, 60_000);
    MeetingReaches(batch);
    assert ExpiredKeys(s.table, 60_000) == {LoneKey(0)};
    SweepReaches(init, s, batch, rules, 2, LoneTx(60_000), LoneKey(0));
    var swept := s.(txs := s.txs[2 := LoneTx(60_000).(planned := true, removed := {LoneKey(0)})]);
    LoneReaches(init, swept, batch, rules, 2, [97, 98], OnePerMinute(), 60_000, {LoneKey(0)});
    assert swept.txs - {2} == LaterDone().txs;
    assert swept.table - {LoneKey(0)} == map[];
    assert map[][LoneKey(60_000) := LoneBucket(60_000)] == map[LoneKey(60_000) := LoneBucket(60_000)];
    assert LoneDone(swept, 2, [97, 98], OnePerMinute(), 60_000, {LoneKey(0)}) == LaterDone();
  }

  /** The earlier one has charged a fresh row and committed too. */
  function OverrunDone(): State {
    LoneDone(LaterDone(), 1, [97, 98], OnePerMinute(), 59_999, {})
  }

  lemma OverrunReaches(batch: BatchSize)
    ensures Reaches(Init(0), batch, LoneRules(), OverrunDone())
  {
    var init, rules, s := Init(0), LoneRules(), LaterDone();
    LoneIsAcceptable();
    LoneKeys(59_999, 0);
    LaterReaches(batch);
    assert ExpiredKeys(s.table, 59_999) == {};
    PlanReaches(init, s, batch, rules, 1, LoneTx(59_999));
    var swept := s.(txs := s.txs[1 := LoneTx(59_999).(planned := true)]);
    LoneReaches(init, swept, batch, rules, 1, [97, 98], OnePerMinute(), 59_999, {});
    assert swept.txs - {1} == s.txs - {1};
  }

  lemma OverrunCounts()
    ensures Admitted(OverrunDone().history, LoneKey(0)) == 2 && Attempts(OverrunDone().history, LoneKey(0)) == 2
  {
    LoneKeys(59_999, 0);
    var key := LoneKey(0);
    var a, e, f := [LoneEvaluation(0, {}, 0, 0)], LoneEvaluation(60_000, {key}, 60_000, 60_000),
                   LoneEvaluation(0, {}, 59_999, 60_000);
    Append([], a[0], key, 1);
    assert [] + [a[0]] == a;
    Append(a, e, key, 1);
    Append(a + [e], f, key, 1);
    assert OverrunDone().history == a + [e] + [f];
  }

  /**
   The bound of one attempt fails in this run: an evaluation reads the clock one millisecond
   before the minute ends, another one at its end sweeps the full row and commits, and the
   first then charges a fresh row. Two are admitted in one window of one.
   */
  lemma WindowOverrun(batch: BatchSize) returns (actions: seq<Action>)
    ensures var s := Run(Init(0), batch, LoneRules(), actions);
            && Admitted(s.history, LoneKey(0)) == 2 > MaximumOf(LoneRules(), LoneKey(0))
            && LoneKey(0) in s.table && s.table[LoneKey(0)].attemptCount == 1 < Attempts(s.history, LoneKey(0))
  {
    OverrunReaches(batch);
    actions :| Run(Init(0), batch, LoneRules(), actions) == OverrunDone();
    OverrunCounts();
    LoneKeys(59_999, 0);
  }
}
