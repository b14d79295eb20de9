/**
 Any number of evaluations interleaving at read committed. Each reads the clock when its
 transaction starts, runs the cleanup, charges its axes one after another, and commits or
 gives up. The cleanup chooses its rows from the committed table, the earliest expired ones up
 to a batch, and deletes them one by one in an order of its own, waiting for each row that
 another transaction has locked; a row that is gone by then is passed over, and one that has
 changed may be. A row a transaction has deleted or written stays locked until its end, and
 nobody else sees the change before. The clock never goes back, but evaluations need not commit
 in the order of the times they read. The history is not part of the program: it records what
 every committed evaluation did.
 */
module AbuseRuns {
  import opened Wrappers
  import opened Text
  import opened KeyedSort
  import opened AbuseProtection
  import opened AbuseLimits

  datatype Rule = Rule(maximumAttempts: int, windowMs: int)

  /** One rule per policy and axis. */
  type Rules = (Text, Axis) -> Rule

  /** An evaluation in flight: the rows it is still to delete, those it has deleted, those it has written, and how far it is. */
  datatype Tx = Tx(
    policy: Text, limits: seq<Limit>, now: int, planned: bool, plan: seq<Key>, removed: set<Key>,
    charged: nat, written: Table, denied: seq<Limit>)

  /** A committed evaluation: what was asked, and which buckets it charged, passed and removed. */
  datatype Evaluation = Evaluation(
    policy: Text, limits: seq<Limit>, charged: set<Key>, passed: set<Key>, removed: set<Key>, at: int, doneAt: int, allowed: bool)

  datatype State = State(
    table: Table, audits: seq<Key>, history: seq<Evaluation>, clock: int, txs: map<nat, Tx>)

  datatype Action =
    | Tick(elapsed: nat)
    | Begin(id: nat, request: Request)
    | PlanSweep(id: nat, plan: seq<Key>)
    | SweepNext(id: nat, passOver: bool)
    | ChargeNext(id: nat)
    | Commit(id: nat)
    | GiveUp(id: nat)

  function Init(clock: int): State {
    State(map[], [], [], clock, map[])
  }

  predicate Conforms(request: Request, rules: Rules) {
    forall limit <- request.limits ::
      rules(request.policy, limit.axis) == Rule(limit.maximumAttempts, limit.windowMs)
  }

  // ---------------------------------------------------------------- steps

  /** The rows a transaction has locked. */
  function Held(tx: Tx): set<Key> {
    tx.removed + tx.written.Keys
  }

  /** Nobody but `id` has locked the row. */
  ghost predicate Free(txs: map<nat, Tx>, id: nat, key: Key) {
    forall other :: other in txs && other != id ==> key !in Held(txs[other])
  }

  /** Rows of the cleanup are left to delete. */
  predicate Sweeping(tx: Tx) {
    tx.planned && |tx.plan| > 0
  }

  predicate Swept(tx: Tx) {
    tx.planned && |tx.plan| == 0
  }

  predicate Charging(tx: Tx) {
    Swept(tx) && tx.charged < |tx.limits| && tx.limits[tx.charged].windowMs > 0
  }

  function Wanted(tx: Tx): Key
    requires Charging(tx)
  {
    KeyFor(tx.policy, tx.limits[tx.charged], tx.now)
  }

  /** The table as a transaction sees it. */
  function View(table: Table, tx: Tx): Table {
    (table - tx.removed) + tx.written
  }

  /** The next upsert: the row's new contents, and the denial it may cause. */
  function Charged(table: Table, tx: Tx): Tx
    requires Charging(tx)
  {
    var limit := tx.limits[tx.charged];
    var row := Upsert(View(table, tx), Wanted(tx), Expiry(limit, tx.now))[Wanted(tx)];
    tx.(charged := tx.charged + 1, written := tx.written[Wanted(tx) := row],
        denied := if row.attemptCount > limit.maximumAttempts then tx.denied + [limit] else tx.denied)
  }

  predicate Finished(tx: Tx) {
    Swept(tx) && tx.charged == |tx.limits| && Windowed(tx.limits) && Windowed(tx.denied)
  }

  function Outcome(tx: Tx, doneAt: int): Evaluation
    requires Finished(tx)
  {
    var charged, denied := KeysOf(tx.policy, tx.limits, tx.now), KeysOf(tx.policy, tx.denied, tx.now);
    Evaluation(tx.policy, tx.limits, charged, charged - denied, tx.removed, tx.now, doneAt, Decide(tx.denied, tx.now).Allowed?)
  }

  /** The denial audit and the commit. */
  function Committed(s: State, id: nat, tx: Tx): State
    requires Finished(tx)
  {
    var (audited, events) := Audit(tx.written, tx.policy, tx.denied, s.audits, tx.now);
    State((s.table - tx.removed) + audited, events, s.history + [Outcome(tx, s.clock)], s.clock, s.txs - {id})
  }

  function ApplyBegin(s: State, rules: Rules, id: nat, request: Request): State {
    if id in s.txs || Refuse(request).Some? || !Conforms(request, rules) then s
    else
      s.(txs := s.txs[id := Tx(request.policy, NormalizedLimits(request.limits).value, s.clock,
                               false, [], {}, 0, map[], [])])
  }

  function Members<T>(items: seq<T>): set<T> {
    set item | item in items
  }

  predicate NoRepeats<T(==)>(items: seq<T>) {
    forall i, j :: 0 <= i < j < |items| ==> items[i] != items[j]
  }

  /** The rows of a cleanup, in any order. */
  ghost predicate MayPlan(s: State, batch: BatchSize, id: nat, plan: seq<Key>) {
    && id in s.txs && !s.txs[id].planned
    && NoRepeats(plan) && IsSweep(s.table, s.txs[id].now, batch, Members(plan))
  }

  ghost function ApplyPlan(s: State, batch: BatchSize, id: nat, plan: seq<Key>): State {
    if !MayPlan(s, batch, id, plan) then s
    else s.(txs := s.txs[id := s.txs[id].(planned := true, plan := plan)])
  }

  /** The next row of the cleanup is deleted, unless it is gone or passed over. */
  function Deleted(table: Table, tx: Tx, passOver: bool): Tx
    requires Sweeping(tx)
  {
    tx.(plan := tx.plan[1..],
        removed := if passOver || tx.plan[0] !in table then tx.removed else tx.removed + {tx.plan[0]})
  }

  ghost function ApplySweep(s: State, id: nat, passOver: bool): State {
    if id !in s.txs || !Sweeping(s.txs[id]) || !Free(s.txs, id, s.txs[id].plan[0]) then s
    else s.(txs := s.txs[id := Deleted(s.table, s.txs[id], passOver)])
  }

  ghost function ApplyCharge(s: State, id: nat): State {
    if id !in s.txs || !Charging(s.txs[id]) || !Free(s.txs, id, Wanted(s.txs[id])) then s
    else s.(txs := s.txs[id := Charged(s.table, s.txs[id])])
  }

  function ApplyCommit(s: State, id: nat): State {
    if id !in s.txs || !Finished(s.txs[id]) then s else Committed(s, id, s.txs[id])
  }

  /** One step; a step that is not enabled changes nothing. */
  ghost function Apply(s: State, batch: BatchSize, rules: Rules, a: Action): State {
    match a
    case Tick(elapsed) => s.(clock := s.clock + elapsed)
    case Begin(id, request) => ApplyBegin(s, rules, id, request)
    case PlanSweep(id, plan) => ApplyPlan(s, batch, id, plan)
    case SweepNext(id, passOver) => ApplySweep(s, id, passOver)
    case ChargeNext(id) => ApplyCharge(s, id)
    case Commit(id) => ApplyCommit(s, id)
    case GiveUp(id) => s.(txs := s.txs - {id})
  }

  ghost function Run(s: State, batch: BatchSize, rules: Rules, actions: seq<Action>): State
    decreases |actions|
  {
    if |actions| == 0 then s else Run(Apply(s, batch, rules, actions[0]), batch, rules, actions[1..])
  }

  // ---------------------------------------------------------------- history

  function One(b: bool): nat {
    if b then 1 else 0
  }

  /** Committed evaluations that charged the bucket: its true attempts. */
  function Attempts(history: seq<Evaluation>, key: Key): nat {
    if |history| == 0 then 0
    else Attempts(history[..|history| - 1], key) + One(key in history[|history| - 1].charged)
  }

  /** Committed sweeps that removed the bucket. */
  function Removals(history: seq<Evaluation>, key: Key): nat {
    if |history| == 0 then 0
    else Removals(history[..|history| - 1], key) + One(key in history[|history| - 1].removed)
  }

  /** Attempts since the bucket was last removed. */
  function Current(history: seq<Evaluation>, key: Key): nat {
    if |history| == 0 then 0
    else if key in history[|history| - 1].removed then 0
    else Current(history[..|history| - 1], key) + One(key in history[|history| - 1].charged)
  }

  /** Evaluations the bucket did not deny. */
  function Passed(history: seq<Evaluation>, key: Key): nat {
    if |history| == 0 then 0
    else Passed(history[..|history| - 1], key) + One(key in history[|history| - 1].passed)
  }

  /** Evaluations that charged the bucket and were let through. */
  function Admitted(history: seq<Evaluation>, key: Key): nat {
    if |history| == 0 then 0
    else
      var last := history[|history| - 1];
      Admitted(history[..|history| - 1], key) + One(last.allowed && key in last.charged)
  }

  /** Times the bucket went above the maximum. */
  function Overruns(history: seq<Evaluation>, key: Key, maximum: int): nat {
    if |history| == 0 then 0
    else
      var before := history[..|history| - 1];
      Overruns(before, key, maximum)
      + One(key in history[|history| - 1].charged && Current(before, key) == maximum)
  }

  /** Evaluations the bucket let pass although the maximum of true attempts had been made. */
  function Slips(history: seq<Evaluation>, key: Key, maximum: int): nat {
    if |history| == 0 then 0
    else
      var before := history[..|history| - 1];
      Slips(before, key, maximum)
      + One(key in history[|history| - 1].charged && Current(before, key) < maximum <= Attempts(before, key))
  }

  lemma Append(history: seq<Evaluation>, e: Evaluation, key: Key, maximum: int)
    ensures var longer := history + [e];
            && Attempts(longer, key) == Attempts(history, key) + One(key in e.charged)
            && Removals(longer, key) == Removals(history, key) + One(key in e.removed)
            && Current(longer, key)
               == (if key in e.removed then 0 else Current(history, key) + One(key in e.charged))
            && Passed(longer, key) == Passed(history, key) + One(key in e.passed)
            && Admitted(longer, key) == Admitted(history, key) + One(e.allowed && key in e.charged)
            && Overruns(longer, key, maximum)
               == Overruns(history, key, maximum) + One(key in e.charged && Current(history, key) == maximum)
            && Slips(longer, key, maximum)
               == Slips(history, key, maximum)
                  + One(key in e.charged && Current(history, key) < maximum <= Attempts(history, key))
  {
    assert (history + [e])[..|history|] == history;
  }

  // ---------------------------------------------------------------- invariant

  function EndOf(rules: Rules, key: Key): int {
    key.windowStartedAt + rules(key.policy, key.axis).windowMs
  }

  function MaximumOf(rules: Rules, key: Key): int {
    rules(key.policy, key.axis).maximumAttempts
  }

  /** A row is there exactly if it was charged since it was last removed, and counts just that. */
  predicate RowInv(s: State, rules: Rules, key: Key) {
    var n := Current(s.history, key);
    && (key in s.table <==> n > 0)
    && (key in s.table ==>
          && s.table[key].attemptCount == n
          && s.table[key].expiresAt == EndOf(rules, key)
          && (s.table[key].denialAudited <==> n > MaximumOf(rules, key)))
    && Count(s.audits, key) == Overruns(s.history, key, MaximumOf(rules, key))
  }

  /** Evaluation `i` charged the window its time is in, removed only ended windows, and judged by the row. */
  predicate EntryInv(history: seq<Evaluation>, rules: Rules, i: nat, key: Key)
    requires i < |history|
  {
    var e := history[i];
    && (key in e.passed ==> key in e.charged)
    && (e.allowed && key in e.charged ==> key in e.passed)
    && (key in e.charged ==>
          && key !in e.removed
          && 0 < rules(key.policy, key.axis).windowMs <= MAXIMUM_WINDOW_MS
          && MaximumOf(rules, key) >= 1
          && key.windowStartedAt == WindowStart(e.at, rules(key.policy, key.axis).windowMs)
          && (key in e.passed <==> Current(history[..i], key) < MaximumOf(rules, key)))
    && (key in e.removed ==> EndOf(rules, key) <= e.at && Current(history[..i], key) > 0)
  }

  predicate TimesInv(s: State) {
    && (forall i :: 0 <= i < |s.history| ==> s.history[i].at <= s.history[i].doneAt <= s.clock)
    && (forall i, j :: 0 <= i < j < |s.history| ==> s.history[i].doneAt <= s.history[j].doneAt)
  }

  /** A transaction's request follows the rules, in axis order, at a time that has been. */
  ghost predicate PlanInv(s: State, rules: Rules, tx: Tx) {
    && tx.now <= s.clock && ValidPolicy(tx.policy) && tx.charged <= |tx.limits| && (!Swept(tx) ==> tx.charged == 0)
    && |tx.limits| > 0 && Windowed(tx.limits) && DistinctAxes(tx.limits)
    && (forall i, j :: 0 <= i < j < |tx.limits| ==> Less(AxisName(tx.limits[i].axis), AxisName(tx.limits[j].axis)))
    && (forall limit <- tx.limits ::
          ValidLimit(limit) && rules(tx.policy, limit.axis) == Rule(limit.maximumAttempts, limit.windowMs))
  }

  /** Row `i` of a transaction counts one more than the committed row, and is denied exactly above the maximum. */
  predicate WriteInv(history: seq<Evaluation>, tx: Tx, i: nat)
    requires i < |tx.limits| && Windowed(tx.limits)
  {
    var limit := tx.limits[i];
    var key := KeyFor(tx.policy, limit, tx.now);
    var n := Current(history, key);
    && key in tx.written
    && tx.written[key] == Bucket(n + 1, Expiry(limit, tx.now), n > limit.maximumAttempts)
    && (limit in tx.denied <==> n >= limit.maximumAttempts)
  }

  ghost predicate WritesInv(history: seq<Evaluation>, tx: Tx)
    requires Windowed(tx.limits) && tx.charged <= |tx.limits|
  {
    && tx.written.Keys == KeysOf(tx.policy, tx.limits[..tx.charged], tx.now)
    && (forall i :: 0 <= i < tx.charged ==> WriteInv(history, tx, i))
    && (forall limit <- tx.denied :: limit in tx.limits[..tx.charged])
    && DistinctAxes(tx.denied) && |tx.denied| <= tx.charged
  }

  predicate SweptInv(s: State, rules: Rules, tx: Tx) {
    && (!tx.planned ==> tx.plan == [] && tx.removed == {})
    && (forall key <- tx.plan :: EndOf(rules, key) <= tx.now)
    && forall key <- tx.removed :: key in s.table && s.table[key].expiresAt <= tx.now
  }

  ghost predicate TxInv(s: State, rules: Rules, tx: Tx) {
    PlanInv(s, rules, tx) && WritesInv(s.history, tx) && SweptInv(s, rules, tx)
  }

  /** No row is locked twice. */
  ghost predicate Disjoint(txs: map<nat, Tx>) {
    forall a, b :: a in txs && b in txs && a != b ==> Held(txs[a]) !! Held(txs[b])
  }

  ghost predicate RowsInv(s: State, rules: Rules) {
    forall key :: RowInv(s, rules, key)
  }

  ghost predicate HistoryInv(history: seq<Evaluation>, rules: Rules) {
    forall i, key :: 0 <= i < |history| ==> EntryInv(history, rules, i, key)
  }

  ghost predicate TxsInv(s: State, rules: Rules) {
    (forall id :: id in s.txs ==> TxInv(s, rules, s.txs[id])) && Disjoint(s.txs)
  }

  ghost predicate Inv(s: State, rules: Rules) {
    RowsInv(s, rules) && HistoryInv(s.history, rules) && TimesInv(s) && TxsInv(s, rules)
  }

  // ---------------------------------------------------------------- one transaction moves

  lemma WindowHolds(now: int, windowMs: int)
    requires windowMs > 0
    ensures WindowStart(now, windowMs) <= now < WindowStart(now, windowMs) + windowMs
  {
  }

  lemma Scaled(a: int, b: int, w: int)
    requires w > 0 && a <= b
    ensures a * w <= b * w
  {
  }

  lemma QuotientUnique(x: int, w: int, q: int)
    requires w > 0 && q * w <= x < (q + 1) * w
    ensures x / w == q
  {
    var p := x / w;
    assert p * w <= x < (p + 1) * w;
    if p < q {
      Scaled(p + 1, q, w);
    } else if q < p {
      Scaled(q + 1, p, w);
    }
  }

  /** The table, history and audits are as before, and only `id` moves, keeping off other locks. */
  ghost predicate Moves(s: State, after: State, id: nat, tx: Tx) {
    && after == s.(txs := s.txs[id := tx])
    && (forall key <- Held(tx) :: Free(s.txs, id, key))
  }

  lemma MoveKeeps(s: State, after: State, rules: Rules, id: nat, tx: Tx)
    requires Inv(s, rules) && Moves(s, after, id, tx) && TxInv(s, rules, tx)
    ensures Inv(after, rules)
  {
    forall key
      ensures RowInv(after, rules, key)
    {
      assert RowInv(s, rules, key);
    }
    forall other | other in after.txs
      ensures TxInv(after, rules, after.txs[other])
    {
      assert other != id ==> TxInv(s, rules, s.txs[other]);
    }
    MoveKeepsLocks(s, id, tx);
  }

  lemma MoveKeepsLocks(s: State, id: nat, tx: Tx)
    requires Disjoint(s.txs) && forall key <- Held(tx) :: Free(s.txs, id, key)
    ensures Disjoint(s.txs[id := tx])
  {
    var txs := s.txs[id := tx];
    forall a, b | a in txs && b in txs && a != b
      ensures Held(txs[a]) !! Held(txs[b])
    {
      if a == id {
        assert forall key <- Held(tx) :: key !in Held(s.txs[b]);
      } else if b == id {
        assert forall key <- Held(tx) :: key !in Held(s.txs[a]);
      }
    }
  }

  lemma BeginKeeps(s: State, rules: Rules, id: nat, request: Request)
    requires Inv(s, rules)
    ensures Inv(ApplyBegin(s, rules, id, request), rules)
  {
    if id !in s.txs && Refuse(request).None? && Conforms(request, rules) {
      NormalizedLimitsKeep(request.limits);
      NormalizedAscends(request.limits);
      var after := ApplyBegin(s, rules, id, request);
      MoveKeeps(s, after, rules, id, after.txs[id]);
    }
  }

  lemma PlanKeeps(s: State, batch: BatchSize, rules: Rules, id: nat, plan: seq<Key>)
    requires Inv(s, rules)
    ensures Inv(ApplyPlan(s, batch, id, plan), rules)
  {
    if MayPlan(s, batch, id, plan) {
      var after := ApplyPlan(s, batch, id, plan);
      assert TxInv(s, rules, s.txs[id]);
      forall key | key in plan
        ensures EndOf(rules, key) <= s.txs[id].now
      {
        assert key in Members(plan) && RowInv(s, rules, key);
      }
      MoveKeeps(s, after, rules, id, after.txs[id]);
    }
  }

  lemma SweepKeeps(s: State, rules: Rules, id: nat, passOver: bool)
    requires Inv(s, rules)
    ensures Inv(ApplySweep(s, id, passOver), rules)
  {
    if id in s.txs && Sweeping(s.txs[id]) && Free(s.txs, id, s.txs[id].plan[0]) {
      var tx, next := s.txs[id], Deleted(s.table, s.txs[id], passOver);
      assert TxInv(s, rules, tx);
      DeletedHolds(s, rules, tx, passOver);
      forall key | key in Held(next)
        ensures Free(s.txs, id, key)
      {
        if key != tx.plan[0] {
          assert key in Held(tx);
          assert forall other :: other in s.txs && other != id ==> Held(tx) !! Held(s.txs[other]);
        }
      }
      MoveKeeps(s, ApplySweep(s, id, passOver), rules, id, next);
    }
  }

  lemma DeletedHolds(s: State, rules: Rules, tx: Tx, passOver: bool)
    requires RowsInv(s, rules) && TxInv(s, rules, tx) && Sweeping(tx)
    ensures TxInv(s, rules, Deleted(s.table, tx, passOver))
  {
    var next := Deleted(s.table, tx, passOver);
    assert RowInv(s, rules, tx.plan[0]);
    assert tx.plan[0] in tx.plan && forall key <- next.plan :: key in tx.plan;
  }

  lemma KeyAxis(policy: Text, limits: seq<Limit>, now: int, key: Key)
    requires Windowed(limits) && forall limit <- limits :: limit.axis != key.axis
    ensures key !in KeysOf(policy, limits, now)
  {
  }

  /** A charged row belongs to a window that is not over for its transaction, so it is none it has removed. */
  lemma WantedIsThere(s: State, rules: Rules, tx: Tx)
    requires RowsInv(s, rules) && TxInv(s, rules, tx) && Charging(tx)
    ensures EndOf(rules, Wanted(tx)) > tx.now && Wanted(tx) !in tx.removed && Wanted(tx) !in tx.written
    ensures Wanted(tx) in View(s.table, tx) <==> Current(s.history, Wanted(tx)) > 0
    ensures Wanted(tx) in View(s.table, tx) ==> View(s.table, tx)[Wanted(tx)] == s.table[Wanted(tx)]
  {
    var limit, key := tx.limits[tx.charged], Wanted(tx);
    assert limit in tx.limits;
    WindowHolds(tx.now, limit.windowMs);
    assert RowInv(s, rules, key);
    assert forall l <- tx.limits[..tx.charged] :: l.axis != limit.axis;
    KeyAxis(tx.policy, tx.limits[..tx.charged], tx.now, key);
  }

  lemma ChargedWrites(s: State, rules: Rules, tx: Tx)
    requires RowsInv(s, rules) && TxInv(s, rules, tx) && Charging(tx)
    ensures var n := Current(s.history, Wanted(tx));
            var limit := tx.limits[tx.charged];
            Charged(s.table, tx).written
            == tx.written[Wanted(tx) := Bucket(n + 1, Expiry(limit, tx.now), n > limit.maximumAttempts)]
  {
    var limit, key := tx.limits[tx.charged], Wanted(tx);
    WantedIsThere(s, rules, tx);
    assert RowInv(s, rules, key);
    assert limit in tx.limits;
  }

  lemma ChargedKeys(tx: Tx, next: Tx)
    requires Windowed(tx.limits) && tx.charged < |tx.limits|
    requires next.policy == tx.policy && next.limits == tx.limits && next.now == tx.now
    requires next.charged == tx.charged + 1
    ensures KeysOf(next.policy, next.limits[..next.charged], next.now)
         == KeysOf(tx.policy, tx.limits[..tx.charged], tx.now)
          + {KeyFor(tx.policy, tx.limits[tx.charged], tx.now)}
  {
    var more, less := tx.limits[..tx.charged + 1], tx.limits[..tx.charged];
    assert more == less + [tx.limits[tx.charged]];
    forall key | key in KeysOf(tx.policy, less, tx.now)
      ensures key in KeysOf(tx.policy, more, tx.now)
    {
      var i :| 0 <= i < |less| && KeyFor(tx.policy, less[i], tx.now) == key;
      assert more[i] == less[i];
    }
    assert more[tx.charged] == tx.limits[tx.charged];
  }

  /** A row of another axis stays. */
  lemma OtherRowKept(history: seq<Evaluation>, tx: Tx, next: Tx, i: nat)
    requires Windowed(tx.limits) && i < |tx.limits| && WriteInv(history, tx, i)
    requires next.policy == tx.policy && next.limits == tx.limits && next.now == tx.now
    requires KeyFor(tx.policy, tx.limits[i], tx.now) in next.written
    requires next.written[KeyFor(tx.policy, tx.limits[i], tx.now)] == tx.written[KeyFor(tx.policy, tx.limits[i], tx.now)]
    requires tx.limits[i] in next.denied <==> tx.limits[i] in tx.denied
    ensures WriteInv(history, next, i)
  {
  }

  /** What was written before stays. */
  lemma ChargeKeepsOld(s: State, rules: Rules, tx: Tx, i: nat)
    requires RowsInv(s, rules) && TxInv(s, rules, tx) && Charging(tx) && i < tx.charged
    ensures WriteInv(s.history, Charged(s.table, tx), i)
  {
    assert WriteInv(s.history, tx, i);
    assert tx.limits[i].axis != tx.limits[tx.charged].axis;
    OtherRowKept(s.history, tx, Charged(s.table, tx), i);
  }

  /** The new row is as the invariant says. */
  lemma ChargeWritesNew(s: State, rules: Rules, tx: Tx)
    requires RowsInv(s, rules) && TxInv(s, rules, tx) && Charging(tx)
    ensures WriteInv(s.history, Charged(s.table, tx), tx.charged)
  {
    ChargedWrites(s, rules, tx);
    assert forall l <- tx.limits[..tx.charged] :: l.axis != tx.limits[tx.charged].axis;
    assert tx.limits[tx.charged] !in tx.denied;
  }

  lemma ChargeKeepsDenied(s: State, rules: Rules, tx: Tx)
    requires TxInv(s, rules, tx) && Charging(tx)
    ensures var next := Charged(s.table, tx);
            && (forall limit <- next.denied :: limit in next.limits[..next.charged])
            && DistinctAxes(next.denied) && |next.denied| <= next.charged
  {
    var next, limit := Charged(s.table, tx), tx.limits[tx.charged];
    assert next.limits[..next.charged] == tx.limits[..tx.charged] + [limit];
    assert forall l <- tx.limits[..tx.charged] :: l.axis != limit.axis;
    assert forall d <- tx.denied :: d in tx.limits[..tx.charged] && d.axis != limit.axis;
  }

  lemma ChargeKeepsWrites(s: State, rules: Rules, tx: Tx)
    requires RowsInv(s, rules) && TxInv(s, rules, tx) && Charging(tx)
    ensures WritesInv(s.history, Charged(s.table, tx))
  {
    var next := Charged(s.table, tx);
    ChargedKeys(tx, next);
    ChargeKeepsDenied(s, rules, tx);
    forall i | 0 <= i < next.charged
      ensures WriteInv(s.history, next, i)
    {
      if i < tx.charged {
        ChargeKeepsOld(s, rules, tx, i);
      } else {
        ChargeWritesNew(s, rules, tx);
      }
    }
  }

  lemma ChargeKeeps(s: State, rules: Rules, id: nat)
    requires Inv(s, rules)
    ensures Inv(ApplyCharge(s, id), rules)
  {
    if id in s.txs && Charging(s.txs[id]) && Free(s.txs, id, Wanted(s.txs[id])) {
      var tx := s.txs[id];
      var next := Charged(s.table, tx);
      assert TxInv(s, rules, tx);
      ChargeKeepsWrites(s, rules, tx);
      forall key | key in Held(next)
        ensures Free(s.txs, id, key)
      {
        if key != Wanted(tx) {
          assert key in Held(tx);
          assert forall other :: other in s.txs && other != id ==> Held(tx) !! Held(s.txs[other]);
        }
      }
      MoveKeeps(s, ApplyCharge(s, id), rules, id, next);
    }
  }

  // ---------------------------------------------------------------- commit

  /** What the audit leaves of the written rows. */
  lemma AuditedWrites(s: State, rules: Rules, tx: Tx, key: Key)
    requires TxInv(s, rules, tx) && Finished(tx)
    ensures var (audited, events) := Audit(tx.written, tx.policy, tx.denied, s.audits, tx.now);
            var mine := key in KeysOf(tx.policy, tx.denied, tx.now);
            && (key in audited <==> key in tx.written)
            && (mine ==> key in tx.written)
            && (key in tx.written ==>
                  audited[key] == tx.written[key].(denialAudited := tx.written[key].denialAudited || mine))
            && Count(events, key) == Count(s.audits, key) + One(mine && !tx.written[key].denialAudited)
  {
    forall k | k in KeysOf(tx.policy, tx.denied, tx.now)
      ensures k in tx.written
    {
      var j :| 0 <= j < |tx.denied| && KeyFor(tx.policy, tx.denied[j], tx.now) == k;
      assert tx.denied[j] in tx.limits[..tx.charged];
      var i :| 0 <= i < tx.charged && tx.limits[..tx.charged][i] == tx.denied[j];
      assert WriteInv(s.history, tx, i);
    }
    AuditEffect(tx.written, tx.policy, tx.denied, s.audits, tx.now, key);
  }

  /** Which limit a row was written for. */
  lemma WrittenAt(s: State, rules: Rules, tx: Tx, key: Key) returns (i: nat)
    requires TxInv(s, rules, tx) && key in tx.written
    ensures i < tx.charged && key == KeyFor(tx.policy, tx.limits[i], tx.now) && WriteInv(s.history, tx, i)
  {
    var limits := tx.limits[..tx.charged];
    var j :| 0 <= j < |limits| && KeyFor(tx.policy, limits[j], tx.now) == key;
    i := j;
    assert limits[i] == tx.limits[i];
  }

  lemma WrittenRule(s: State, rules: Rules, tx: Tx, i: nat)
    requires TxInv(s, rules, tx) && i < tx.charged
    ensures var (limit, key) := (tx.limits[i], KeyFor(tx.policy, tx.limits[i], tx.now));
            && ValidLimit(limit) && key.windowStartedAt == WindowStart(tx.now, limit.windowMs)
            && rules(key.policy, key.axis) == Rule(limit.maximumAttempts, limit.windowMs)
            && EndOf(rules, key) == Expiry(limit, tx.now) > tx.now
  {
    assert tx.limits[i] in tx.limits;
    WindowHolds(tx.now, tx.limits[i].windowMs);
  }

  lemma DeniedRow(s: State, rules: Rules, tx: Tx, i: nat)
    requires TxInv(s, rules, tx) && Finished(tx) && i < tx.charged
    ensures KeyFor(tx.policy, tx.limits[i], tx.now) in KeysOf(tx.policy, tx.denied, tx.now) <==> tx.limits[i] in tx.denied
  {
    var key := KeyFor(tx.policy, tx.limits[i], tx.now);
    if tx.limits[i] in tx.denied {
      var j :| 0 <= j < |tx.denied| && tx.denied[j] == tx.limits[i];
      assert KeyFor(tx.policy, tx.denied[j], tx.now) in KeysOf(tx.policy, tx.denied, tx.now);
    }
    if key in KeysOf(tx.policy, tx.denied, tx.now) {
      var j :| 0 <= j < |tx.denied| && KeyFor(tx.policy, tx.denied[j], tx.now) == key;
      assert tx.denied[j] in tx.limits[..tx.charged];
      var m :| 0 <= m < tx.charged && tx.limits[..tx.charged][m] == tx.denied[j];
      assert tx.limits[m].axis == tx.limits[i].axis;
    }
  }

  /** The limit a written row belongs to, with all the invariant says of it. */
  lemma WrittenFor(s: State, rules: Rules, tx: Tx, key: Key) returns (i: nat)
    requires TxInv(s, rules, tx) && Finished(tx) && key in tx.written
    ensures i < tx.charged && key == KeyFor(tx.policy, tx.limits[i], tx.now) && WriteInv(s.history, tx, i)
    ensures rules(key.policy, key.axis) == Rule(tx.limits[i].maximumAttempts, tx.limits[i].windowMs)
    ensures ValidLimit(tx.limits[i]) && key.windowStartedAt == WindowStart(tx.now, tx.limits[i].windowMs)
    ensures EndOf(rules, key) == Expiry(tx.limits[i], tx.now) > tx.now
    ensures key in KeysOf(tx.policy, tx.denied, tx.now) <==> tx.limits[i] in tx.denied
  {
    i := WrittenAt(s, rules, tx, key);
    WrittenRule(s, rules, tx, i);
    DeniedRow(s, rules, tx, i);
  }

  lemma RemovedEnded(s: State, rules: Rules, tx: Tx, key: Key)
    requires RowsInv(s, rules) && TxInv(s, rules, tx) && key in tx.removed
    ensures EndOf(rules, key) <= tx.now && Current(s.history, key) > 0
  {
    assert RowInv(s, rules, key);
  }

  /** Committed rows of a transaction are the ones it had locked. */
  lemma OutcomeKeys(s: State, rules: Rules, tx: Tx)
    requires TxInv(s, rules, tx) && Finished(tx)
    ensures Outcome(tx, s.clock).charged == tx.written.Keys && Outcome(tx, s.clock).removed == tx.removed
  {
    assert tx.limits[..tx.charged] == tx.limits;
  }

  lemma CommitRow(s: State, rules: Rules, id: nat, tx: Tx, key: Key)
    requires RowsInv(s, rules) && TxInv(s, rules, tx) && Finished(tx)
    ensures RowInv(Committed(s, id, tx), rules, key)
  {
    var e := Outcome(tx, s.clock);
    OutcomeKeys(s, rules, tx);
    Append(s.history, e, key, MaximumOf(rules, key));
    AuditedWrites(s, rules, tx, key);
    assert RowInv(s, rules, key);
    if key in tx.removed {
      RemovedEnded(s, rules, tx, key);
    }
    if key in tx.written {
      var i := WrittenFor(s, rules, tx, key);
    }
  }

  lemma CommitEntry(s: State, rules: Rules, tx: Tx, key: Key)
    requires RowsInv(s, rules) && TxInv(s, rules, tx) && Finished(tx)
    ensures EntryInv(s.history + [Outcome(tx, s.clock)], rules, |s.history|, key)
  {
    var e := Outcome(tx, s.clock);
    var longer := s.history + [e];
    assert longer[..|s.history|] == s.history && longer[|s.history|] == e;
    OutcomeKeys(s, rules, tx);
    if key in tx.removed {
      RemovedEnded(s, rules, tx, key);
    }
    if key in tx.written {
      var i := WrittenFor(s, rules, tx, key);
      assert e.allowed ==> tx.denied == [];
    }
  }

  lemma CommitHistory(s: State, rules: Rules, tx: Tx)
    requires RowsInv(s, rules) && HistoryInv(s.history, rules) && TxInv(s, rules, tx) && Finished(tx)
    ensures HistoryInv(s.history + [Outcome(tx, s.clock)], rules)
  {
    var longer := s.history + [Outcome(tx, s.clock)];
    forall i, key | 0 <= i < |longer|
      ensures EntryInv(longer, rules, i, key)
    {
      if i < |s.history| {
        assert EntryInv(s.history, rules, i, key);
        assert longer[..i] == s.history[..i];
      } else {
        CommitEntry(s, rules, tx, key);
      }
    }
  }

  /** A commit leaves alone what other transactions have locked. */
  lemma CommitKeepsOther(s: State, rules: Rules, id: nat, other: nat)
    requires RowsInv(s, rules) && TxsInv(s, rules) && id in s.txs && other in s.txs && id != other
    requires Finished(s.txs[id])
    ensures TxInv(Committed(s, id, s.txs[id]), rules, s.txs[other])
  {
    var tx, o := s.txs[id], s.txs[other];
    var after := Committed(s, id, tx);
    assert TxInv(s, rules, tx) && TxInv(s, rules, o);
    assert Held(tx) !! Held(o);
    OutcomeKeys(s, rules, tx);
    forall i | 0 <= i < o.charged
      ensures WriteInv(after.history, o, i)
    {
      assert WriteInv(s.history, o, i);
      Append(s.history, Outcome(tx, s.clock), KeyFor(o.policy, o.limits[i], o.now), 0);
    }
    forall key | key in o.removed
      ensures key in after.table && after.table[key].expiresAt <= o.now
    {
      assert key in Held(o) && key !in Held(tx);
      AuditedWrites(s, rules, tx, key);
    }
  }

  lemma CommitKeeps(s: State, rules: Rules, id: nat)
    requires Inv(s, rules)
    ensures Inv(ApplyCommit(s, id), rules)
  {
    if id in s.txs && Finished(s.txs[id]) {
      var tx, after := s.txs[id], ApplyCommit(s, id);
      assert TxInv(s, rules, tx);
      forall key
        ensures RowInv(after, rules, key)
      {
        CommitRow(s, rules, id, tx, key);
      }
      CommitHistory(s, rules, tx);
      forall other | other in after.txs
        ensures TxInv(after, rules, after.txs[other])
      {
        CommitKeepsOther(s, rules, id, other);
      }
    }
  }

  // ---------------------------------------------------------------- all steps

  lemma QuietKeeps(s: State, after: State, rules: Rules)
    requires Inv(s, rules) && after == s.(clock := after.clock, txs := after.txs) && s.clock <= after.clock
    requires forall id :: id in after.txs ==> id in s.txs && after.txs[id] == s.txs[id]
    ensures Inv(after, rules)
  {
    forall key
      ensures RowInv(after, rules, key)
    {
      assert RowInv(s, rules, key);
    }
    forall id | id in after.txs
      ensures TxInv(after, rules, after.txs[id])
    {
      assert TxInv(s, rules, s.txs[id]);
    }
  }

  lemma InvStep(s: State, batch: BatchSize, rules: Rules, a: Action)
    requires Inv(s, rules)
    ensures Inv(Apply(s, batch, rules, a), rules)
  {
    match a
    case Tick(elapsed) => QuietKeeps(s, Apply(s, batch, rules, a), rules);
    case Begin(id, request) => BeginKeeps(s, rules, id, request);
    case PlanSweep(id, plan) => PlanKeeps(s, batch, rules, id, plan);
    case SweepNext(id, passOver) => SweepKeeps(s, rules, id, passOver);
    case ChargeNext(id) => ChargeKeeps(s, rules, id);
    case Commit(id) => CommitKeeps(s, rules, id);
    case GiveUp(id) => QuietKeeps(s, Apply(s, batch, rules, a), rules);
  }

  lemma InitInv(clock: int, rules: Rules)
    ensures Inv(Init(clock), rules)
  {
  }

  lemma {:induction false} InvRun(s: State, batch: BatchSize, rules: Rules, actions: seq<Action>)
    requires Inv(s, rules)
    ensures Inv(Run(s, batch, rules, actions), rules)
    decreases |actions|
  {
    if |actions| > 0 {
      InvStep(s, batch, rules, actions[0]);
      InvRun(Apply(s, batch, rules, actions[0]), batch, rules, actions[1..]);
    }
  }
}
