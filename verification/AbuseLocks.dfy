/**
 Waiting among interleaving evaluations. Each deletes its cleanup's rows, then charges its rows
 in the axis order of its normalised limits, and keeps all of them locked. A state is stuck
 only through a cycle of waits, every such cycle goes through a deleted row, and none can
 happen if the cleanup deletes one row at a time and the windows of a policy nest.
 */
module AbuseLocks {
  import opened Text
  import opened KeyedSort
  import opened AbuseProtection
  import opened AbuseLimits
  import opened AbuseRuns

  /** The row a transaction has to lock for its next step. */
  function Next(tx: Tx): Key
    requires Sweeping(tx) || Charging(tx)
  {
    if Sweeping(tx) then tx.plan[0] else Wanted(tx)
  }

  /** `t` cannot delete or charge its next row because `u` has locked it. */
  predicate WaitsFor(s: State, t: nat, u: nat) {
    && t in s.txs && u in s.txs && t != u
    && (Sweeping(s.txs[t]) || Charging(s.txs[t])) && Next(s.txs[t]) in Held(s.txs[u])
  }

  /** `t` waits for a row that `u` has deleted in its cleanup. */
  predicate WaitsForSweep(s: State, t: nat, u: nat) {
    WaitsFor(s, t, u) && Next(s.txs[t]) in s.txs[u].removed
  }

  predicate WaitChain(s: State, path: seq<nat>) {
    forall i :: 0 <= i < |path| - 1 ==> WaitsFor(s, path[i], path[i + 1])
  }

  /** A cycle of waits, its first member repeated at the end. */
  predicate WaitCycle(s: State, path: seq<nat>) {
    |path| > 1 && WaitChain(s, path) && path[0] == path[|path| - 1]
  }

  ghost predicate Deadlocked(s: State) {
    exists path: seq<nat> :: WaitCycle(s, path)
  }

  // ---------------------------------------------------------------- cycles go through deleted rows

  function Rank(axis: Axis): (r: nat)
    ensures r < 5
  {
    match axis
    case Account => 0
    case Device => 1
    case Network => 2
    case Session => 3
    case Target => 4
  }

  lemma RankFollowsNames(a: Axis, b: Axis)
    requires Less(AxisName(a), AxisName(b))
    ensures Rank(a) < Rank(b)
  {
    LessTotal(AxisName(a), AxisName(a));
    assert AxisName(a)[0] <= AxisName(b)[0];
  }

  /** How far a transaction is: in its cleanup, at an axis, or past the last. */
  function Progress(tx: Tx): (r: nat)
    ensures r <= 6
  {
    if Charging(tx) then 1 + Rank(Wanted(tx).axis) else if Swept(tx) then 6 else 0
  }

  /** A written row is one of an axis before the next. */
  lemma WrittenBefore(s: State, rules: Rules, tx: Tx, key: Key) returns (i: nat)
    requires TxInv(s, rules, tx) && key in tx.written
    ensures i < tx.charged && key == KeyFor(tx.policy, tx.limits[i], tx.now) && Swept(tx)
    ensures tx.charged < |tx.limits| ==> Less(AxisName(key.axis), AxisName(tx.limits[tx.charged].axis))
  {
    i := WrittenAt(s, rules, tx, key);
  }

  /** Who waits for a written row waits for somebody further on. */
  lemma WaitClimbs(s: State, rules: Rules, t: nat, u: nat)
    requires WaitsFor(s, t, u) && !WaitsForSweep(s, t, u) && TxInv(s, rules, s.txs[u])
    ensures Progress(s.txs[t]) < Progress(s.txs[u])
  {
    var tx := s.txs[u];
    var i := WrittenBefore(s, rules, tx, Next(s.txs[t]));
    if Charging(tx) && Charging(s.txs[t]) {
      RankFollowsNames(Wanted(s.txs[t]).axis, Wanted(tx).axis);
    }
  }

  /** Some member of the chain waits for a deleted row. */
  predicate ThroughSweep(s: State, path: seq<nat>) {
    exists i :: 0 <= i < |path| - 1 && WaitsForSweep(s, path[i], path[i + 1])
  }

  lemma {:induction false} ChainClimbs(s: State, rules: Rules, path: seq<nat>)
    requires TxsInv(s, rules) && |path| > 1 && WaitChain(s, path) && !ThroughSweep(s, path)
    ensures path[0] in s.txs && path[|path| - 1] in s.txs
    ensures Progress(s.txs[path[0]]) < Progress(s.txs[path[|path| - 1]])
    decreases |path|
  {
    assert WaitsFor(s, path[0], path[1]) && !WaitsForSweep(s, path[0], path[1]);
    assert TxInv(s, rules, s.txs[path[1]]);
    WaitClimbs(s, rules, path[0], path[1]);
    if |path| > 2 {
      var rest := path[1..];
      forall i | 0 <= i < |rest| - 1
        ensures WaitsFor(s, rest[i], rest[i + 1]) && !WaitsForSweep(s, rest[i], rest[i + 1])
      {
        assert WaitsFor(s, path[i + 1], path[i + 2]) && !WaitsForSweep(s, path[i + 1], path[i + 2]);
      }
      ChainClimbs(s, rules, rest);
    }
  }

  /** In every reachable state, evaluations that wait in a cycle do so through a deleted row. */
  lemma NoDeadlock(clock: int, batch: BatchSize, rules: Rules, actions: seq<Action>, path: seq<nat>)
    requires WaitCycle(Run(Init(clock), batch, rules, actions), path)
    ensures ThroughSweep(Run(Init(clock), batch, rules, actions), path)
  {
    InitInv(clock, rules);
    InvRun(Init(clock), batch, rules, actions);
    var s := Run(Init(clock), batch, rules, actions);
    if !ThroughSweep(s, path) {
      ChainClimbs(s, rules, path);
    }
  }

  // ---------------------------------------------------------------- no cycle with nesting windows

  predicate ValidRule(rule: Rule) {
    1 <= rule.maximumAttempts <= 10_000 && 1_000 <= rule.windowMs <= MAXIMUM_WINDOW_MS
  }

  /** A policy charges axis `a` before axis `b`, and not every end of a window of `b` is one of `a`. */
  predicate Clashes(rules: Rules, policy: Text, a: Axis, b: Axis) {
    && ValidPolicy(policy) && Less(AxisName(a), AxisName(b))
    && ValidRule(rules(policy, a)) && ValidRule(rules(policy, b))
    && rules(policy, b).windowMs % rules(policy, a).windowMs != 0
  }

  /** No transaction has more rows deleted and to be deleted than a batch. */
  ghost predicate BatchInv(s: State, batch: BatchSize) {
    forall id :: id in s.txs ==> |s.txs[id].removed| + |s.txs[id].plan| <= batch
  }

  lemma {:induction false} NoRepeatsCount<T>(items: seq<T>)
    requires NoRepeats(items)
    ensures |Members(items)| == |items|
  {
    if |items| == 0 {
      assert Members(items) == {};
    } else {
      NoRepeatsCount(items[1..]);
      assert Members(items) == {items[0]} + Members(items[1..]);
      assert items[0] !in Members(items[1..]);
    }
  }

  lemma PlanKeepsBatch(s: State, batch: BatchSize, id: nat, plan: seq<Key>)
    requires BatchInv(s, batch) && (forall t :: t in s.txs && !s.txs[t].planned ==> s.txs[t].removed == {})
    ensures BatchInv(ApplyPlan(s, batch, id, plan), batch)
  {
    if MayPlan(s, batch, id, plan) {
      NoRepeatsCount(plan);
    }
  }

  lemma SweepKeepsBatch(s: State, batch: BatchSize, id: nat, passOver: bool)
    requires BatchInv(s, batch)
    ensures BatchInv(ApplySweep(s, id, passOver), batch)
  {
  }

  lemma BatchStep(s: State, batch: BatchSize, rules: Rules, a: Action)
    requires TxsInv(s, rules) && BatchInv(s, batch)
    ensures BatchInv(Apply(s, batch, rules, a), batch)
  {
    if a.PlanSweep? {
      forall t | t in s.txs && !s.txs[t].planned
        ensures s.txs[t].removed == {}
      {
        assert TxInv(s, rules, s.txs[t]);
      }
      PlanKeepsBatch(s, batch, a.id, a.plan);
    } else if a.SweepNext? {
      SweepKeepsBatch(s, batch, a.id, a.passOver);
    }
  }

  lemma {:induction false} BatchRun(s: State, batch: BatchSize, rules: Rules, actions: seq<Action>)
    requires Inv(s, rules) && BatchInv(s, batch)
    ensures BatchInv(Run(s, batch, rules, actions), batch)
    decreases |actions|
  {
    if |actions| > 0 {
      BatchStep(s, batch, rules, actions[0]);
      InvStep(s, batch, rules, actions[0]);
      BatchRun(Apply(s, batch, rules, actions[0]), batch, rules, actions[1..]);
    }
  }

  /** With a batch of one, whoever holds a row is through with its cleanup. */
  lemma HolderIsSwept(s: State, rules: Rules, u: nat, key: Key)
    requires u in s.txs && TxInv(s, rules, s.txs[u]) && BatchInv(s, 1) && key in Held(s.txs[u])
    ensures Swept(s.txs[u])
  {
    var tx := s.txs[u];
    if key in tx.written {
      var i := WrittenBefore(s, rules, tx, key);
    } else {
      assert {key} <= tx.removed;
      CountOne(key, tx.removed);
    }
  }

  lemma CountOne(key: Key, keys: set<Key>)
    requires key in keys
    ensures |keys| >= 1
  {
    assert keys == {key} + (keys - {key});
  }

  lemma Regrouped(a: int, k: int, w: int)
    ensures a * (k * w) == (a * k) * w
  {
  }

  lemma OneMoreTimes(a: int, w: int)
    ensures (a + 1) * w == a * w + w
  {
  }

  /** A window lies within a window whose length is a multiple of its own. */
  lemma Nested(now: int, inner: int, outer: int)
    requires inner > 0 && outer > 0 && outer % inner == 0
    ensures WindowStart(now, inner) + inner <= WindowStart(now, outer) + outer
  {
    var m, q, k := now / inner, now / outer, outer / inner;
    var e := (q + 1) * k;
    WindowHolds(now, outer);
    WindowHolds(now, inner);
    Regrouped(q + 1, k, inner);
    OneMoreTimes(q, outer);
    OneMoreTimes(m, inner);
    assert m * inner <= now < e * inner;
    if e <= m {
      Scaled(e, m, inner);
    }
    Scaled(m + 1, e, inner);
  }

  lemma LaterAxisNests(s: State, rules: Rules, tx: Tx, i: nat)
    requires TxInv(s, rules, tx) && Charging(tx) && i < tx.charged
    requires forall p, a, b :: !Clashes(rules, p, a, b)
    ensures EndOf(rules, KeyFor(tx.policy, tx.limits[i], tx.now)) <= EndOf(rules, Wanted(tx))
  {
    var x, y := tx.limits[i], tx.limits[tx.charged];
    assert x in tx.limits && y in tx.limits;
    assert !Clashes(rules, tx.policy, x.axis, y.axis);
    Nested(tx.now, x.windowMs, y.windowMs);
  }

  /** With nesting windows, who charges waits for somebody whose window ends no earlier, and for a deleted row later. */
  lemma WaitNests(s: State, rules: Rules, t: nat, u: nat)
    requires RowsInv(s, rules) && WaitsFor(s, t, u) && Charging(s.txs[t]) && Charging(s.txs[u])
    requires TxInv(s, rules, s.txs[u]) && forall p, a, b :: !Clashes(rules, p, a, b)
    ensures EndOf(rules, Wanted(s.txs[t])) <= EndOf(rules, Wanted(s.txs[u]))
    ensures WaitsForSweep(s, t, u) ==> EndOf(rules, Wanted(s.txs[t])) < EndOf(rules, Wanted(s.txs[u]))
  {
    var tx, key := s.txs[u], Wanted(s.txs[t]);
    WantedIsThere(s, rules, tx);
    if key in tx.removed {
      RemovedEnded(s, rules, tx, key);
    } else {
      var i := WrittenBefore(s, rules, tx, key);
      LaterAxisNests(s, rules, tx, i);
    }
  }

  ghost predicate AllCharging(s: State, path: seq<nat>) {
    forall i :: 0 <= i < |path| ==> path[i] in s.txs && Charging(s.txs[path[i]])
  }

  lemma {:induction false} Ascends(ends: seq<int>)
    requires |ends| > 0 && forall i :: 0 <= i < |ends| - 1 ==> ends[i] <= ends[i + 1]
    ensures ends[0] <= ends[|ends| - 1]
    ensures (exists i :: 0 <= i < |ends| - 1 && ends[i] < ends[i + 1]) ==> ends[0] < ends[|ends| - 1]
  {
    if |ends| > 1 {
      var front := ends[..|ends| - 1];
      assert forall i :: 0 <= i < |front| ==> front[i] == ends[i];
      Ascends(front);
    }
  }

  /** The ends of the windows that the members of a chain want to charge. */
  ghost function EndsOf(s: State, rules: Rules, path: seq<nat>): (ends: seq<int>)
    requires AllCharging(s, path)
    ensures |ends| == |path| && forall i :: 0 <= i < |path| ==> ends[i] == EndOf(rules, Wanted(s.txs[path[i]]))
  {
    seq(|path|, i requires 0 <= i < |path| => EndOf(rules, Wanted(s.txs[path[i]])))
  }

  lemma CycleKeepsOff(s: State, rules: Rules, path: seq<nat>)
    requires RowsInv(s, rules) && TxsInv(s, rules) && WaitCycle(s, path) && AllCharging(s, path)
    requires forall p, a, b :: !Clashes(rules, p, a, b)
    ensures !ThroughSweep(s, path)
  {
    var ends := EndsOf(s, rules, path);
    forall i | 0 <= i < |path| - 1
      ensures ends[i] <= ends[i + 1] && (WaitsForSweep(s, path[i], path[i + 1]) ==> ends[i] < ends[i + 1])
    {
      assert WaitsFor(s, path[i], path[i + 1]) && TxInv(s, rules, s.txs[path[i + 1]]);
      WaitNests(s, rules, path[i], path[i + 1]);
    }
    Ascends(ends);
  }

  /** Who waits and is waited for charges. */
  lemma MiddleCharges(s: State, rules: Rules, t: nat, u: nat, v: nat)
    requires TxsInv(s, rules) && BatchInv(s, 1) && WaitsFor(s, t, u) && WaitsFor(s, u, v)
    ensures Charging(s.txs[u])
  {
    assert TxInv(s, rules, s.txs[u]);
    HolderIsSwept(s, rules, u, Next(s.txs[t]));
  }

  /** The members of a cycle before and after member `i`. */
  lemma Neighbours(s: State, path: seq<nat>, i: nat) returns (t: nat, v: nat)
    requires WaitCycle(s, path) && i < |path|
    ensures WaitsFor(s, t, path[i]) && WaitsFor(s, path[i], v)
  {
    var before := if i > 0 then i - 1 else |path| - 2;
    var at := if i < |path| - 1 then i else 0;
    t, v := path[before], path[at + 1];
    assert WaitsFor(s, path[before], path[before + 1]);
  }

  lemma CycleCharges(s: State, rules: Rules, path: seq<nat>)
    requires TxsInv(s, rules) && BatchInv(s, 1) && WaitCycle(s, path)
    ensures AllCharging(s, path)
  {
    forall i | 0 <= i < |path|
      ensures path[i] in s.txs && Charging(s.txs[path[i]])
    {
      var t, v := Neighbours(s, path, i);
      MiddleCharges(s, rules, t, path[i], v);
    }
  }

  /** No evaluations ever wait in a cycle if cleanups delete one row at a time and no axes clash. */
  lemma NoCycle(clock: int, rules: Rules, actions: seq<Action>)
    requires forall p, a, b :: !Clashes(rules, p, a, b)
    ensures !Deadlocked(Run(Init(clock), 1, rules, actions))
  {
    InitInv(clock, rules);
    InvRun(Init(clock), 1, rules, actions);
    BatchRun(Init(clock), 1, rules, actions);
    var s := Run(Init(clock), 1, rules, actions);
    if path: seq<nat> :| WaitCycle(s, path) {
      CycleCharges(s, rules, path);
      CycleKeepsOff(s, rules, path);
      ChainClimbs(s, rules, path);
    }
  }

  // ---------------------------------------------------------------- progress

  /** A transaction can take its next step: start its cleanup, delete a row, charge or commit. */
  ghost predicate CanStep(s: State, batch: BatchSize, id: nat) {
    && id in s.txs
    && var tx := s.txs[id];
       || (exists plan :: MayPlan(s, batch, id, plan))
       || ((Sweeping(tx) || Charging(tx)) && Free(s.txs, id, Next(tx)))
       || Finished(tx)
  }

  /** The earliest of the other rows makes a cleanup one row longer. */
  lemma SweepMore(table: Table, now: int, n: nat, removed: set<Key>, next: Key)
    requires n > 0 && IsSweep(table, now, n - 1, removed) && next in ExpiredKeys(table, now) - removed
    requires forall other <- ExpiredKeys(table, now) - removed :: table[next].expiresAt <= table[other].expiresAt
    ensures IsSweep(table, now, n, removed + {next})
  {
    var expired := ExpiredKeys(table, now);
    CountWithin(removed + {next}, expired);
    assert |removed + {next}| == |removed| + 1;
  }

  lemma SweepAll(table: Table, now: int, n: nat, removed: set<Key>)
    requires n > 0 && IsSweep(table, now, n - 1, removed) && ExpiredKeys(table, now) - removed == {}
    ensures IsSweep(table, now, n, removed)
  {
    assert ExpiredKeys(table, now) == removed;
  }

  lemma Earliest(table: Table, keys: set<Key>) returns (next: Key)
    requires keys != {} && forall key <- keys :: key in table
    ensures next in keys && forall other <- keys :: table[next].expiresAt <= table[other].expiresAt
  {
    EarliestExists(table, keys);
    next :| next in keys && forall other <- keys :: table[next].expiresAt <= table[other].expiresAt;
  }

  lemma OneMore(plan: seq<Key>, next: Key)
    requires NoRepeats(plan) && next !in Members(plan)
    ensures NoRepeats(plan + [next]) && Members(plan + [next]) == Members(plan) + {next}
  {
  }

  /** There is always a cleanup to make. */
  lemma {:induction false} SweepExists(table: Table, now: int, n: nat) returns (plan: seq<Key>)
    ensures NoRepeats(plan) && IsSweep(table, now, n, Members(plan))
  {
    if n == 0 {
      plan := [];
      assert Members(plan) == {};
    } else {
      plan := SweepExists(table, now, n - 1);
      if ExpiredKeys(table, now) - Members(plan) == {} {
        SweepAll(table, now, n, Members(plan));
      } else {
        var next := Earliest(table, ExpiredKeys(table, now) - Members(plan));
        SweepMore(table, now, n, Members(plan), next);
        OneMore(plan, next);
        plan := plan + [next];
      }
    }
  }

  /** Somebody `t` waits for, if there is anybody. */
  ghost function Blocker(s: State, t: nat): nat {
    if exists u: nat :: WaitsFor(s, t, u)
    then
      var u: nat :| WaitsFor(s, t, u);
      u
    else t
  }

  lemma UnplannedSteps(s: State, batch: BatchSize, t: nat)
    requires t in s.txs && !s.txs[t].planned
    ensures CanStep(s, batch, t)
  {
    var plan := SweepExists(s.table, s.txs[t].now, batch);
    assert MayPlan(s, batch, t, plan);
  }

  lemma StuckWaits(s: State, batch: BatchSize, rules: Rules, t: nat)
    requires t in s.txs && TxInv(s, rules, s.txs[t]) && !CanStep(s, batch, t)
    ensures WaitsFor(s, t, Blocker(s, t))
  {
    var tx := s.txs[t];
    if !tx.planned {
      UnplannedSteps(s, batch, t);
    }
    if Swept(tx) && tx.charged == |tx.limits| {
      forall i | 0 <= i < |tx.denied|
        ensures tx.denied[i].windowMs > 0
      {
        assert tx.denied[i] in tx.limits[..tx.charged];
      }
    }
    var u :| u in s.txs && u != t && Next(tx) in Held(s.txs[u]);
    assert WaitsFor(s, t, u);
  }

  ghost predicate AllWait(s: State) {
    forall t {:trigger Blocker(s, t)} :: t in s.txs ==> WaitsFor(s, t, Blocker(s, t))
  }

  lemma EverybodyWaits(s: State, batch: BatchSize, rules: Rules)
    requires TxsInv(s, rules) && forall u :: !CanStep(s, batch, u)
    ensures AllWait(s)
  {
    forall u | u in s.txs
      ensures WaitsFor(s, u, Blocker(s, u))
    {
      assert TxInv(s, rules, s.txs[u]);
      StuckWaits(s, batch, rules, u);
    }
  }

  /** If everybody waits, waits can be followed for any length. */
  lemma {:induction false} FollowWaits(s: State, t: nat, n: nat) returns (path: seq<nat>)
    requires t in s.txs && AllWait(s)
    ensures |path| == n + 1 && path[0] == t && WaitChain(s, path) && forall u <- path :: u in s.txs
    decreases n
  {
    if n == 0 {
      path := [t];
    } else {
      assert WaitsFor(s, t, Blocker(s, t));
      var rest := FollowWaits(s, Blocker(s, t), n - 1);
      path := [t] + rest;
      forall i | 0 <= i < |path| - 1
        ensures WaitsFor(s, path[i], path[i + 1])
      {
        assert i > 0 ==> WaitsFor(s, rest[i - 1], rest[i]);
      }
    }
  }

  lemma Repeats(path: seq<nat>, nodes: set<nat>) returns (i: nat, j: nat)
    requires |path| > |nodes| && forall u <- path :: u in nodes
    ensures i < j < |path| && path[i] == path[j]
  {
    if NoRepeats(path) {
      NoRepeatsCount(path);
      CountWithin(Members(path), nodes);
    }
    i, j :| 0 <= i < j < |path| && path[i] == path[j];
  }

  lemma CountWithin<T>(some: set<T>, all: set<T>)
    requires some <= all
    ensures |some| <= |all|
  {
    assert all == some + (all - some);
  }

  lemma SubCycle(s: State, path: seq<nat>, i: nat, j: nat)
    requires WaitChain(s, path) && i < j < |path| && path[i] == path[j]
    ensures WaitCycle(s, path[i..j + 1])
  {
    var cycle := path[i..j + 1];
    forall k | 0 <= k < |cycle| - 1
      ensures WaitsFor(s, cycle[k], cycle[k + 1])
    {
      assert WaitsFor(s, path[i + k], path[i + k + 1]);
    }
  }

  lemma AllWaitCycle(s: State, t: nat)
    requires t in s.txs && AllWait(s)
    ensures Deadlocked(s)
  {
    var path := FollowWaits(s, t, |s.txs.Keys|);
    var i, j := Repeats(path, s.txs.Keys);
    SubCycle(s, path, i, j);
  }

  /**
   In every reachable state with an evaluation in flight, some evaluation can take its next
   step, unless there is a cycle of waits.
   */
  lemma SomeoneProceeds(clock: int, batch: BatchSize, rules: Rules, actions: seq<Action>, t: nat)
    requires t in Run(Init(clock), batch, rules, actions).txs
    ensures var s := Run(Init(clock), batch, rules, actions);
            Deadlocked(s) || exists u :: CanStep(s, batch, u)
  {
    InitInv(clock, rules);
    InvRun(Init(clock), batch, rules, actions);
    var s := Run(Init(clock), batch, rules, actions);
    if forall u :: !CanStep(s, batch, u) {
      EverybodyWaits(s, batch, rules);
      AllWaitCycle(s, t);
    }
  }
}
