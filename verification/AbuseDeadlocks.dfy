/**
 Exactly when evaluations can come to wait for each other in a cycle: when the cleanup may
 delete two rows, or when a policy charges an axis before another whose windows do not end
 with windows of the first. Both can be read off the configuration. The policy table has such
 axes.
 */
module AbuseDeadlocks {
  import opened Text
  import opened KeyedSort
  import opened AbuseProtection
  import opened AbuseRuns
  import opened AbuseLocks
  import opened AbuseScenarios
  import AbusePolicy

  /** The limiter accepts the rule of this policy and axis. */
  predicate Accepts(rules: Rules, policy: Text, axis: Axis) {
    ValidPolicy(policy) && ValidRule(rules(policy, axis))
  }

  ghost predicate InUse(rules: Rules) {
    exists policy, axis :: Accepts(rules, policy, axis)
  }

  ghost predicate Clashing(rules: Rules) {
    exists policy, a, b :: Clashes(rules, policy, a, b)
  }

  ghost predicate DeadlockReachable(clock: int, batch: BatchSize, rules: Rules) {
    exists actions: seq<Action> :: Deadlocked(Run(Init(clock), batch, rules, actions))
  }

  lemma ReachedDeadlock(clock: int, batch: BatchSize, rules: Rules, s: State)
    requires Reaches(Init(clock), batch, rules, s) && Deadlocked(s)
    ensures DeadlockReachable(clock, batch, rules)
  {
    var actions :| Run(Init(clock), batch, rules, actions) == s;
  }

  lemma PairDeadlocks(s: State, t: nat, u: nat)
    requires WaitsFor(s, t, u) && WaitsFor(s, u, t)
    ensures Deadlocked(s)
  {
    assert WaitCycle(s, [t, u, t]);
  }

  /** A limit of an axis as its rule has it. */
  function LimitOf(rules: Rules, policy: Text, axis: Axis, subject: Text): Limit {
    Limit(axis, rules(policy, axis).maximumAttempts, subject, rules(policy, axis).windowMs)
  }

  lemma OneIsAcceptable(rules: Rules, policy: Text, axis: Axis, u: Unit)
    requires Accepts(rules, policy, axis) && 65 <= u <= 66
    ensures ValidLimit(LimitOf(rules, policy, axis, [u]))
    ensures Acceptable(rules, policy, [LimitOf(rules, policy, axis, [u])])
  {
  }

  // ---------------------------------------------------------------- two cleanups

  /** An evaluation of one axis into a fresh row, with nobody else in flight and nothing to clean up. */
  lemma LoneRound(clock: int, batch: BatchSize, rules: Rules, s: State, policy: Text, limit: Limit) returns (t: State)
    requires Reaches(Init(clock), batch, rules, s) && s.txs == map[] && ExpiredKeys(s.table, s.clock) == {}
    requires ValidLimit(limit) && Acceptable(rules, policy, [limit]) && KeyFor(policy, limit, s.clock) !in s.table
    ensures Reaches(Init(clock), batch, rules, t) && t.clock == s.clock && t.txs == map[]
    ensures t.table == s.table[KeyFor(policy, limit, s.clock) := FirstBucket(limit, s.clock)]
  {
    var init, tx := Init(clock), Fresh(policy, [limit], s.clock);
    BeginReaches(init, s, batch, rules, 0, policy, [limit]);
    var begun := s.(txs := s.txs[0 := tx]);
    PlanReaches(init, begun, batch, rules, 0, tx);
    var swept := begun.(txs := begun.txs[0 := tx.(planned := true)]);
    LoneReaches(init, swept, batch, rules, 0, policy, limit, s.clock, {});
    t := LoneDone(swept, 0, policy, limit, s.clock, {});
    assert swept.txs - {0} == map[] && s.table - {} == s.table;
  }

  /** Two rows of one rule, of which an evaluation has charged each once. */
  lemma TwoRowsReach(clock: int, batch: BatchSize, rules: Rules, policy: Text, axis: Axis) returns (s: State)
    requires Accepts(rules, policy, axis)
    ensures var (x, y) := (LimitOf(rules, policy, axis, [65]), LimitOf(rules, policy, axis, [66]));
            && x.windowMs > 0 && y.windowMs > 0
            && Reaches(Init(clock), batch, rules, s) && s.clock == clock && s.txs == map[]
            && s.table == map[KeyFor(policy, x, clock) := FirstBucket(x, clock)]
                             [KeyFor(policy, y, clock) := FirstBucket(y, clock)]
  {
    var x, y := LimitOf(rules, policy, axis, [65]), LimitOf(rules, policy, axis, [66]);
    ReachesItself(Init(clock), batch, rules);
    var first := LoneRound(clock, batch, rules, Init(clock), policy, x);
    assert KeyFor(policy, y, clock).subject.subject[0] == 66 && KeyFor(policy, x, clock).subject.subject[0] == 65;
    WindowHolds(clock, x.windowMs);
    assert map[][KeyFor(policy, x, clock) := FirstBucket(x, clock)] == map[KeyFor(policy, x, clock) := FirstBucket(x, clock)];
    s := LoneRound(clock, batch, rules, first, policy, y);
  }

  lemma TwoExpired(s: State, batch: BatchSize, id: nat, x: Key, y: Key)
    requires batch > 1 && x != y && id in s.txs && !s.txs[id].planned
    requires ExpiredKeys(s.table, s.txs[id].now) == {x, y}
    ensures MayPlan(s, batch, id, [x, y])
  {
    assert Members([x, y]) == {x, y};
  }

  /** The cleanup that finds two rows, after it has deleted the first. */
  lemma HalfSweepReaches(init: State, s: State, batch: BatchSize, rules: Rules, id: nat, tx: Tx, x: Key, y: Key)
    requires Reaches(init, batch, rules, s) && batch > 1 && x != y && id in s.txs && s.txs[id] == tx
    requires !tx.planned && tx.removed == {} && ExpiredKeys(s.table, tx.now) == {x, y} && Free(s.txs, id, x)
    ensures Reaches(init, batch, rules, s.(txs := s.txs[id := tx.(planned := true, plan := [y], removed := {x})]))
  {
    TwoExpired(s, batch, id, x, y);
    Plans(s, batch, rules, id, tx, [x, y]);
    ReachesNext(init, batch, rules, s, PlanSweep(id, [x, y]));
    var planned := s.(txs := s.txs[id := tx.(planned := true, plan := [x, y])]);
    assert x in ExpiredKeys(s.table, tx.now);
    Deletes(planned, batch, rules, id, planned.txs[id]);
    ReachesNext(init, batch, rules, planned, SweepNext(id, false));
    assert [x, y][1..] == [y] && {} + {x} == {x};
  }

  /** Two cleanups of the same two rows meet in the middle. */
  lemma CleanupsMeet(clock: int, batch: BatchSize, rules: Rules, s: State, policy: Text, limit: Limit, x: Key, y: Key)
    requires Reaches(Init(clock), batch, rules, s) && s.txs == map[] && batch > 1 && x != y
    requires Acceptable(rules, policy, [limit]) && ExpiredKeys(s.table, s.clock) == {x, y}
    ensures DeadlockReachable(clock, batch, rules)
  {
    var init, tx := Init(clock), Fresh(policy, [limit], s.clock);
    BeginReaches(init, s, batch, rules, 2, policy, [limit]);
    var one := s.(txs := s.txs[2 := tx]);
    BeginReaches(init, one, batch, rules, 3, policy, [limit]);
    var both := one.(txs := one.txs[3 := tx]);
    HalfSweepReaches(init, both, batch, rules, 2, tx, x, y);
    var half := both.(txs := both.txs[2 := tx.(planned := true, plan := [y], removed := {x})]);
    HalfSweepReaches(init, half, batch, rules, 3, tx, y, x);
    var stuck := half.(txs := half.txs[3 := tx.(planned := true, plan := [x], removed := {y})]);
    assert Next(stuck.txs[2]) == y && Next(stuck.txs[3]) == x;
    PairDeadlocks(stuck, 2, 3);
    ReachedDeadlock(clock, batch, rules, stuck);
  }

  /** With a batch of two or more, two cleanups can wait for each other under any rule. */
  lemma BatchesDeadlock(clock: int, batch: BatchSize, rules: Rules, policy: Text, axis: Axis)
    requires batch > 1 && Accepts(rules, policy, axis)
    ensures DeadlockReachable(clock, batch, rules)
  {
    var x, y := LimitOf(rules, policy, axis, [65]), LimitOf(rules, policy, axis, [66]);
    OneIsAcceptable(rules, policy, axis, 65);
    var s := TwoRowsReach(clock, batch, rules, policy, axis);
    TickReaches(Init(clock), s, batch, rules, x.windowMs);
    var late := s.(clock := clock + x.windowMs);
    var kx, ky := KeyFor(policy, x, clock), KeyFor(policy, y, clock);
    assert kx.subject.subject[0] == 65 && ky.subject.subject[0] == 66;
    WindowHolds(clock, x.windowMs);
    assert ExpiredKeys(late.table, late.clock) == {kx, ky};
    CleanupsMeet(clock, batch, rules, late, policy, x, kx, ky);
  }

  // ---------------------------------------------------------------- a cleanup and a charge

  lemma MultipleIsMultiple(k: int, w: int)
    requires w > 0
    ensures (k * w) % w == 0
  {
    QuotientUnique(k * w, w, k);
  }

  lemma RestOfSum(n: int, m: int, w: int)
    requires w > 0 && n % w == 0
    ensures (n + m) % w == m % w
  {
    var q, r := n / w, m / w;
    Distributes(q, r, w);
    QuotientUnique(n + m, w, q + r);
  }

  lemma Distributes(q: int, r: int, w: int)
    ensures (q + r) * w == q * w + r * w && (q + r + 1) * w == q * w + r * w + w
  {
  }

  /** Some window of the later axis ends, after any time, where none of the earlier axis does. */
  lemma ClashingEnd(clock: int, inner: int, outer: int) returns (n: int)
    requires inner > 0 && outer > 0 && outer % inner != 0
    ensures n > clock && n % outer == 0 && n % inner != 0
  {
    var q := clock / outer;
    WindowHolds(clock, outer);
    OneMoreTimes(q, outer);
    MultipleIsMultiple(q + 1, outer);
    n := (q + 1) * outer;
    if n % inner == 0 {
      RestOfSum(n, outer, inner);
      RestOfSum(n, outer, outer);
      n := n + outer;
    }
  }

  lemma EndsThere(n: int, w: int)
    requires w > 0 && n % w == 0
    ensures WindowStart(n - 1, w) + w == n
  {
    var q := n / w;
    OneMoreTimes(q - 1, w);
    QuotientUnique(n - 1, w, q - 1);
  }

  lemma GoesOnThere(n: int, w: int)
    requires w > 0 && n % w != 0
    ensures WindowStart(n - 1, w) == WindowStart(n, w)
  {
    var q := n / w;
    WindowHolds(n, w);
    OneMoreTimes(q, w);
    QuotientUnique(n - 1, w, q);
  }

  lemma TwoAreAcceptable(rules: Rules, policy: Text, a: Axis, b: Axis)
    requires Clashes(rules, policy, a, b)
    ensures a != b
    ensures Acceptable(rules, policy, [LimitOf(rules, policy, a, [66]), LimitOf(rules, policy, b, [65])])
  {
    LessTotal(AxisName(a), AxisName(a));
    OneIsAcceptable(rules, policy, a, 66);
    OneIsAcceptable(rules, policy, b, 65);
  }

  /** An evaluation that has charged the first of two axes into a fresh row. */
  function HalfCharged(policy: Text, x: Limit, y: Limit, now: int): Tx
    requires x.windowMs > 0
  {
    Fresh(policy, [x, y], now).(planned := true, charged := 1,
      written := map[KeyFor(policy, x, now) := FirstBucket(x, now)])
  }

  lemma HalfChargeReaches(clock: int, batch: BatchSize, rules: Rules, s: State, policy: Text, x: Limit, y: Limit)
    requires Reaches(Init(clock), batch, rules, s) && s.txs == map[] && ExpiredKeys(s.table, s.clock) == {}
    requires Acceptable(rules, policy, [x, y]) && ValidLimit(x) && ValidLimit(y)
    requires KeyFor(policy, x, s.clock) !in s.table
    ensures Reaches(Init(clock), batch, rules, s.(txs := map[1 := HalfCharged(policy, x, y, s.clock)]))
  {
    var init, tx := Init(clock), Fresh(policy, [x, y], s.clock);
    BeginReaches(init, s, batch, rules, 1, policy, [x, y]);
    var begun := s.(txs := s.txs[1 := tx]);
    PlanReaches(init, begun, batch, rules, 1, tx);
    var swept := begun.(txs := begun.txs[1 := tx.(planned := true)]);
    assert swept.txs[1].limits[0] == x && Wanted(swept.txs[1]) == KeyFor(policy, x, s.clock);
    ChargesFresh(swept, batch, rules, 1, swept.txs[1]);
    ReachesNext(init, batch, rules, swept, ChargeNext(1));
    assert map[][Wanted(swept.txs[1]) := FirstBucket(x, s.clock)] == map[Wanted(swept.txs[1]) := FirstBucket(x, s.clock)];
    assert swept.txs[1 := HalfCharged(policy, x, y, s.clock)] == map[1 := HalfCharged(policy, x, y, s.clock)];
  }

  /** The second evaluation begins as the window of `y` ends, and sweeps its row. */
  lemma LateSweepDeadlocks(clock: int, batch: BatchSize, rules: Rules, s: State, policy: Text, x: Limit, y: Limit, n: int)
    requires Acceptable(rules, policy, [x, y]) && ValidLimit(x) && ValidLimit(y) && x.axis != y.axis
    requires KeyFor(policy, x, n - 1) == KeyFor(policy, x, n) && Expiry(y, n - 1) == n
    requires s.table == map[KeyFor(policy, y, n - 1) := FirstBucket(y, n - 1)] && s.clock == n - 1
    requires s.txs == map[1 := HalfCharged(policy, x, y, n - 1)] && Reaches(Init(clock), batch, rules, s)
    ensures DeadlockReachable(clock, batch, rules)
  {
    var init, tx, key := Init(clock), Fresh(policy, [x, y], n), KeyFor(policy, y, n - 1);
    TickReaches(init, s, batch, rules, 1);
    var late := s.(clock := n);
    BeginReaches(init, late, batch, rules, 2, policy, [x, y]);
    var begun := late.(txs := late.txs[2 := tx]);
    assert ExpiredKeys(begun.table, n) == {key};
    assert Held(begun.txs[1]) == {KeyFor(policy, x, n)};
    SweepReaches(init, begun, batch, rules, 2, tx, key);
    var stuck := begun.(txs := begun.txs[2 := tx.(planned := true, removed := {key})]);
    assert stuck.txs[1].limits[1] == y && Next(stuck.txs[1]) == key;
    assert stuck.txs[2].limits[0] == x && Next(stuck.txs[2]) == KeyFor(policy, x, n);
    PairDeadlocks(stuck, 1, 2);
    ReachedDeadlock(clock, batch, rules, stuck);
  }

  /**
   With clashing axes a cleanup and a charge can wait for each other: the first evaluation
   begins one millisecond before a window of the later axis ends, has locked its row of the
   earlier axis, and wants its row of the later one; the second begins as that window ends, has
   deleted that row, and wants the row of the earlier axis, whose window goes on.
   */
  lemma ClashDeadlocks(clock: int, batch: BatchSize, rules: Rules, policy: Text, a: Axis, b: Axis)
    requires Clashes(rules, policy, a, b)
    ensures DeadlockReachable(clock, batch, rules)
  {
    var x, y := LimitOf(rules, policy, a, [66]), LimitOf(rules, policy, b, [65]);
    var n := ClashingEnd(clock, x.windowMs, y.windowMs);
    EndsThere(n, y.windowMs);
    GoesOnThere(n, x.windowMs);
    OneIsAcceptable(rules, policy, a, 66);
    OneIsAcceptable(rules, policy, b, 65);
    TwoAreAcceptable(rules, policy, a, b);
    ReachesItself(Init(clock), batch, rules);
    TickReaches(Init(clock), Init(clock), batch, rules, n - 1 - clock);
    var s := LoneRound(clock, batch, rules, Init(clock).(clock := n - 1), policy, y);
    assert s.table == map[KeyFor(policy, y, n - 1) := FirstBucket(y, n - 1)];
    HalfChargeReaches(clock, batch, rules, s, policy, x, y);
    LateSweepDeadlocks(clock, batch, rules, s.(txs := map[1 := HalfCharged(policy, x, y, n - 1)]), policy, x, y, n);
  }

  // ---------------------------------------------------------------- the exact condition

  /**
   From any time on, evaluations can come to wait for each other in a cycle exactly when the
   cleanup may delete more than one row and some rule is accepted at all, or when some policy
   charges an axis before another whose window is no multiple of its own.
   */
  lemma DeadlockIff(clock: int, batch: BatchSize, rules: Rules)
    ensures DeadlockReachable(clock, batch, rules) <==> (batch > 1 && InUse(rules)) || Clashing(rules)
  {
    if Clashing(rules) {
      var policy, a, b :| Clashes(rules, policy, a, b);
      ClashDeadlocks(clock, batch, rules, policy, a, b);
    } else if batch > 1 && InUse(rules) {
      var policy, axis :| Accepts(rules, policy, axis);
      BatchesDeadlock(clock, batch, rules, policy, axis);
    } else if DeadlockReachable(clock, batch, rules) {
      var actions: seq<Action> :| Deadlocked(Run(Init(clock), batch, rules, actions));
      if batch == 1 {
        NoCycle(clock, rules, actions);
      } else {
        NobodyBegins(clock, batch, rules, actions);
      }
    }
  }

  lemma SomethingIsAccepted(s: State, rules: Rules, tx: Tx)
    requires TxInv(s, rules, tx)
    ensures InUse(rules)
  {
    assert tx.limits[0] in tx.limits;
    assert Accepts(rules, tx.policy, tx.limits[0].axis);
  }

  /** Where no rule is accepted no evaluation is ever in flight. */
  lemma NobodyBegins(clock: int, batch: BatchSize, rules: Rules, actions: seq<Action>)
    requires !InUse(rules)
    ensures !Deadlocked(Run(Init(clock), batch, rules, actions))
  {
    InitInv(clock, rules);
    InvRun(Init(clock), batch, rules, actions);
    var s := Run(Init(clock), batch, rules, actions);
    if path: seq<nat> :| WaitCycle(s, path) {
      assert WaitsFor(s, path[0], path[1]);
      SomethingIsAccepted(s, rules, s.txs[path[0]]);
    }
  }

  /** Then some evaluation in flight can always take its next step. */
  lemma AlwaysProceeds(clock: int, rules: Rules, actions: seq<Action>, t: nat)
    requires !Clashing(rules) && t in Run(Init(clock), 1, rules, actions).txs
    ensures exists u :: CanStep(Run(Init(clock), 1, rules, actions), 1, u)
  {
    SomeoneProceeds(clock, 1, rules, actions, t);
    NoCycle(clock, rules, actions);
  }

  // ---------------------------------------------------------------- the policy table

  lemma TableRuleOf(policy: AbusePolicy.PolicyName, axis: Axis, rule: Rule)
    requires AbusePolicy.HasRule(policy, axis, rule)
    ensures AbusePolicy.TableRule(AbusePolicy.StorageKey(policy), axis) == rule
  {
    assert AbusePolicy.Says(AbusePolicy.StorageKey(policy), axis, rule);
    AbusePolicy.TableRuleIs(AbusePolicy.StorageKey(policy), axis, rule);
  }

  lemma OrderSubmitName()
    ensures ValidPolicy(AbusePolicy.StorageKey(AbusePolicy.OrderSubmit))
  {
    var name := [111, 114, 100, 101, 114, 46, 115, 117, 98, 109, 105, 116, 46, 118, 49];
    assert AbusePolicy.StorageKey(AbusePolicy.OrderSubmit) == name;
    assert name[1..] == [114, 100, 101, 114, 46, 115, 117, 98, 109, 105, 116, 46, 118, 49];
  }

  lemma OrderSubmitRules()
    ensures AbusePolicy.HasRule(AbusePolicy.OrderSubmit, Network, Rule(20, 60_000))
    ensures AbusePolicy.HasRule(AbusePolicy.OrderSubmit, Account, Rule(8, 600_000))
  {
    var d := AbusePolicy.Definitions(AbusePolicy.OrderSubmit);
    assert d[0] in d && d[1] in d;
  }

  lemma AccountBeforeNetwork()
    ensures Less(AxisName(Account), AxisName(Network))
  {
    assert AxisName(Account)[0] == 65 && AxisName(Network)[0] == 78;
  }

  /** An account's ten minutes are charged before a network's one minute. */
  lemma OrderSubmitClashes()
    ensures Clashes(AbusePolicy.TableRule, AbusePolicy.StorageKey(AbusePolicy.OrderSubmit), Account, Network)
  {
    OrderSubmitName();
    OrderSubmitRules();
    AccountBeforeNetwork();
    TableRuleOf(AbusePolicy.OrderSubmit, Network, Rule(20, 60_000));
    TableRuleOf(AbusePolicy.OrderSubmit, Account, Rule(8, 600_000));
  }

  /** With the rules of the policy table a cycle of waits is always within reach, whatever the batch. */
  lemma TableDeadlocks(clock: int, batch: BatchSize)
    ensures DeadlockReachable(clock, batch, AbusePolicy.TableRule)
  {
    OrderSubmitClashes();
    DeadlockIff(clock, batch, AbusePolicy.TableRule);
  }
}
