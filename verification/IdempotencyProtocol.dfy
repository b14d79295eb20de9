/**
 Any number of callers interleaving over one store. Each store call and each end of a
 protected body is one step; time passes between steps; a caller that crashes simply
 takes no further step. The log is not part of the program: it records what happened.
 */
module IdempotencyProtocol {
  import opened Wrappers
  import opened Text
  import opened Idempotency

  /** What a caller is told in the end; a failed body carries no error here. */
  type Answer<V> = Execution<V, ()>

  /** Where a caller is between its claim and its last store call, and then its answer. */
  datatype Client<V> =
    | Executing(op: Operation, lease: nat)
    | Succeeded(op: Operation, lease: nat, result: V, cloneable: bool)
    | Failed(op: Operation, lease: nat)
    | Finished(answer: Answer<V>)

  datatype Event<V> =
    | Started(key: Text, fingerprint: Text, at: int)
    | Expired(key: Text, at: int)
    | Stored(key: Text, fingerprint: Text, value: V, expiresAt: int)
    | Replayed(key: Text, fingerprint: Text, value: V)

  datatype State<V> = State(
    store: Store<V>, clock: int, clients: map<nat, Client<V>>, log: seq<Event<V>>)

  datatype Action<V> =
    | Tick(elapsed: nat)
    | Arrive(client: nat, op: Operation)
    | BodyReturns(client: nat, value: V, cloneable: bool)
    | BodyThrows(client: nat)
    | Conclude(client: nat)

  function Init<V>(clock: int): State<V> {
    State(Store(map[], 0), clock, map[], [])
  }

  function ClaimEvents<V>(s: State<V>, op: Operation, reply: ClaimReply<V>): seq<Event<V>> {
    match reply
    case Claimed(_) =>
      (if KeyOf(op) in s.store.records then [Expired(KeyOf(op), s.clock)] else [])
      + [Started(KeyOf(op), op.fingerprint, s.clock)]
    case Replay(value) => [Replayed(KeyOf(op), op.fingerprint, value)]
    case _ => []
  }

  /** The answer of a call that does not run its body. */
  function ReuseAnswer<V>(reply: ClaimReply<V>): Answer<V>
    requires !reply.Claimed?
  {
    match reply
    case Replay(value) => Returned(value)
    case Conflict => KeyReused
    case InProgress => StillInProgress
    case NeedsRecovery => RecoveryNeeded
  }

  /** The answer of a call whose body has ended and whose last store call answered `outcome`. */
  function BodyAnswer<V>(client: Client<V>, outcome: Transition): Answer<V>
    requires client.Succeeded? || client.Failed?
  {
    if client.Succeeded? then
      if outcome.Done? then Returned(client.result) else NotCompleted
    else if outcome.Done? then BodyFailed(())
    else BodyFailedUnrecorded(())
  }

  function ApplyArrive<V>(s: State<V>, client: nat, op: Operation): State<V> {
    if client in s.clients || !Valid(op) then s
    else
      var (store, reply) := ClaimKey(s.store, op, s.clock);
      s.(store := store,
         clients := s.clients[client := if reply.Claimed? then Executing(op, reply.leaseId)
                                        else Finished(ReuseAnswer(reply))],
         log := s.log + ClaimEvents(s, op, reply))
  }

  function ConcludeStore<V>(s: State<V>, client: Client<V>): (Store<V>, Transition) {
    match client
    case Succeeded(op, lease, result, cloneable) => CompleteKey(s.store, op, lease, result, cloneable, s.clock)
    case Failed(op, lease) => RequireRecovery(s.store, op, lease)
    case _ => (s.store, Done)
  }

  function ApplyConclude<V>(s: State<V>, id: nat): State<V> {
    if id !in s.clients || !(s.clients[id].Succeeded? || s.clients[id].Failed?) then s
    else
      var client := s.clients[id];
      var (store, outcome) := ConcludeStore(s, client);
      s.(store := store,
         clients := s.clients[id := Finished(BodyAnswer(client, outcome))],
         log := if client.Succeeded? && outcome.Done?
                then s.log + [Stored(KeyOf(client.op), client.op.fingerprint, client.result,
                                     s.clock + client.op.retentionSeconds * 1_000)]
                else s.log)
  }

  /** One step; a step that is not enabled changes nothing. */
  function Apply<V>(s: State<V>, a: Action<V>): State<V> {
    match a
    case Tick(elapsed) => s.(clock := s.clock + elapsed)
    case Arrive(client, op) => ApplyArrive(s, client, op)
    case BodyReturns(id, value, cloneable) =>
      if id in s.clients && s.clients[id].Executing?
      then s.(clients := s.clients[id := Succeeded(s.clients[id].op, s.clients[id].lease, value, cloneable)])
      else s
    case BodyThrows(id) =>
      if id in s.clients && s.clients[id].Executing?
      then s.(clients := s.clients[id := Failed(s.clients[id].op, s.clients[id].lease)]) else s
    case Conclude(id) => ApplyConclude(s, id)
  }

  function Run<V>(s: State<V>, actions: seq<Action<V>>): State<V>
    decreases |actions|
  {
    if |actions| == 0 then s else Run(Apply(s, actions[0]), actions[1..])
  }

  // ---------------------------------------------------------------- the log

  function Starts<V>(log: seq<Event<V>>, key: Text): nat {
    if |log| == 0 then 0
    else Starts(log[..|log| - 1], key) + (if log[|log| - 1].Started? && log[|log| - 1].key == key then 1 else 0)
  }

  function Expiries<V>(log: seq<Event<V>>, key: Text): nat {
    if |log| == 0 then 0
    else Expiries(log[..|log| - 1], key) + (if log[|log| - 1].Expired? && log[|log| - 1].key == key then 1 else 0)
  }

  /** The latest result stored under `key`. */
  function LastStored<V>(log: seq<Event<V>>, key: Text): (r: Option<Event<V>>)
    ensures r.Some? ==> r.value.Stored? && r.value.key == key
  {
    if |log| == 0 then None
    else if log[|log| - 1].Stored? && log[|log| - 1].key == key then Some(log[|log| - 1])
    else LastStored(log[..|log| - 1], key)
  }

  /** What an event must agree with in the events before it. */
  ghost predicate Justified<V>(before: seq<Event<V>>, e: Event<V>) {
    match e
    case Replayed(key, fingerprint, value) =>
      var last := LastStored(before, key);
      last.Some? && last.value.fingerprint == fingerprint && last.value.value == value
    case Expired(key, at) =>
      var last := LastStored(before, key);
      last.Some? && last.value.expiresAt <= at
    case _ => true
  }

  ghost predicate LogJustified<V>(log: seq<Event<V>>) {
    forall i :: 0 <= i < |log| ==> Justified(log[..i], log[i])
  }

  // ---------------------------------------------------------------- invariant

  predicate Holds<V>(c: Client<V>) {
    !c.Finished?
  }

  /** Between claim and conclusion, the record is pending under the caller's own lease. */
  predicate OwnsLease<V>(s: State<V>, c: Client<V>) {
    Holds(c) ==>
      && Valid(c.op)
      && Owns(s.store, c.op, c.lease)
      && s.store.records[KeyOf(c.op)].retentionSeconds == c.op.retentionSeconds
      && c.lease <= s.store.leaseSequence
  }

  ghost predicate LeasesOwned<V>(s: State<V>) {
    && (forall id <- s.clients :: OwnsLease(s, s.clients[id]))
    && (forall a <- s.clients, b <- s.clients ::
          Holds(s.clients[a]) && Holds(s.clients[b]) && s.clients[a].lease == s.clients[b].lease ==> a == b)
  }

  ghost predicate StartsCounted<V>(s: State<V>) {
    forall key ::
      Starts(s.log, key) == Expiries(s.log, key) + (if key in s.store.records then 1 else 0)
  }

  ghost predicate ResultsLogged<V>(s: State<V>) {
    forall key <- s.store.records ::
      var record := s.store.records[key];
      record.Completed? ==> LastStored(s.log, key) == Some(Stored(key, record.fingerprint, record.result, record.expiresAt))
  }

  ghost predicate Inv<V>(s: State<V>) {
    LeasesOwned(s) && StartsCounted(s) && ResultsLogged(s) && LogJustified(s.log)
  }

  lemma AppendEvent<V>(log: seq<Event<V>>, e: Event<V>, key: Text)
    ensures Starts(log + [e], key) == Starts(log, key) + (if e.Started? && e.key == key then 1 else 0)
    ensures Expiries(log + [e], key) == Expiries(log, key) + (if e.Expired? && e.key == key then 1 else 0)
    ensures LastStored(log + [e], key) == if e.Stored? && e.key == key then Some(e) else LastStored(log, key)
  {
    assert (log + [e])[..|log|] == log;
  }

  lemma AppendJustified<V>(log: seq<Event<V>>, e: Event<V>)
    requires LogJustified(log) && Justified(log, e)
    ensures LogJustified(log + [e])
  {
    var extended := log + [e];
    forall i | 0 <= i < |extended|
      ensures Justified(extended[..i], extended[i])
    {
      if i < |log| {
        assert extended[..i] == log[..i];
      } else {
        assert extended[..i] == log;
      }
    }
  }

  lemma ArriveKeepsLeases<V>(s: State<V>, client: nat, op: Operation)
    requires LeasesOwned(s)
    ensures LeasesOwned(ApplyArrive(s, client, op))
  {
    var t := ApplyArrive(s, client, op);
    forall id | id in t.clients
      ensures OwnsLease(t, t.clients[id])
    {
      if id in s.clients {
        assert OwnsLease(s, s.clients[id]);
      }
    }
  }

  /** The events up to the start of a body: the expiry that let it start, if any. */
  function BeforeStart<V>(s: State<V>, key: Text): seq<Event<V>> {
    if key in s.store.records then s.log + [Expired(key, s.clock)] else s.log
  }

  predicate StartsBody<V>(s: State<V>, a: Action<V>, key: Text) {
    && a.Arrive? && a.client !in s.clients && Valid(a.op)
    && KeyOf(a.op) == key && Live(s.store.records, key, s.clock).None?
  }

  lemma StartEvents<V>(s: State<V>, client: nat, op: Operation, key: Text)
    requires StartsBody(s, Arrive(client, op), KeyOf(op))
    ensures var log := ApplyArrive(s, client, op).log;
            && log == BeforeStart(s, KeyOf(op)) + [Started(KeyOf(op), op.fingerprint, s.clock)]
            && Starts(log, key) == Starts(s.log, key) + (if key == KeyOf(op) then 1 else 0)
            && Expiries(log, key)
            == Expiries(s.log, key) + (if key == KeyOf(op) && key in s.store.records then 1 else 0)
            && LastStored(log, key) == LastStored(s.log, key)
  {
    var k := KeyOf(op);
    AppendEvent(s.log, Expired(k, s.clock), key);
    AppendEvent(BeforeStart(s, k), Started(k, op.fingerprint, s.clock), key);
  }

  lemma ReuseEvents<V>(s: State<V>, client: nat, op: Operation, key: Text)
    requires !StartsBody(s, Arrive(client, op), KeyOf(op))
    ensures var log := ApplyArrive(s, client, op).log;
            && Starts(log, key) == Starts(s.log, key)
            && Expiries(log, key) == Expiries(s.log, key)
            && LastStored(log, key) == LastStored(s.log, key)
  {
    var log := ApplyArrive(s, client, op).log;
    if log != s.log {
      AppendEvent(s.log, log[|s.log|], key);
    }
  }

  lemma ConcludeEvents<V>(s: State<V>, id: nat, key: Text)
    ensures var t := ApplyConclude(s, id);
            && Starts(t.log, key) == Starts(s.log, key)
            && Expiries(t.log, key) == Expiries(s.log, key)
  {
    var log := ApplyConclude(s, id).log;
    if log != s.log {
      AppendEvent(s.log, log[|s.log|], key);
    }
  }

  /** A step adds a start under `key` exactly when it starts a body under `key`. */
  lemma StartCount<V>(s: State<V>, a: Action<V>, key: Text)
    ensures Starts(Apply(s, a).log, key) == Starts(s.log, key) + (if StartsBody(s, a, key) then 1 else 0)
  {
    match a {
      case Arrive(client, op) =>
        if StartsBody(s, a, KeyOf(op)) {
          StartEvents(s, client, op, key);
        } else {
          ReuseEvents(s, client, op, key);
        }
      case Conclude(id) => ConcludeEvents(s, id, key);
      case _ =>
    }
  }

  lemma StartJustified<V>(s: State<V>, client: nat, op: Operation)
    requires Inv(s) && StartsBody(s, Arrive(client, op), KeyOf(op))
    ensures LogJustified(ApplyArrive(s, client, op).log)
  {
    var key := KeyOf(op);
    if key in s.store.records {
      AppendJustified(s.log, Expired(key, s.clock));
    }
    StartEvents(s, client, op, key);
    AppendJustified(BeforeStart(s, key), Started(key, op.fingerprint, s.clock));
  }

  lemma StartKeepsCounts<V>(s: State<V>, client: nat, op: Operation)
    requires Inv(s) && StartsBody(s, Arrive(client, op), KeyOf(op))
    ensures StartsCounted(ApplyArrive(s, client, op))
  {
    var t := ApplyArrive(s, client, op);
    forall k
      ensures Starts(t.log, k) == Expiries(t.log, k) + (if k in t.store.records then 1 else 0)
    {
      StartEvents(s, client, op, k);
    }
  }

  lemma StartKeepsResults<V>(s: State<V>, client: nat, op: Operation)
    requires ResultsLogged(s) && StartsBody(s, Arrive(client, op), KeyOf(op))
    ensures ResultsLogged(ApplyArrive(s, client, op))
  {
    var t := ApplyArrive(s, client, op);
    StartShape(s, client, op);
    forall k | k in t.store.records && t.store.records[k].Completed?
      ensures k in s.store.records && t.store.records[k] == s.store.records[k]
      ensures LastStored(t.log, k) == LastStored(s.log, k)
    {
      StartEvents(s, client, op, k);
    }
  }

  lemma StartShape<V>(s: State<V>, client: nat, op: Operation)
    requires StartsBody(s, Arrive(client, op), KeyOf(op))
    ensures ApplyArrive(s, client, op).store.records
         == s.store.records[KeyOf(op) := Pending(op.fingerprint, s.store.leaseSequence + 1, op.retentionSeconds)]
  {
  }

  lemma ReuseKeepsLog<V>(s: State<V>, client: nat, op: Operation)
    requires Inv(s) && !StartsBody(s, Arrive(client, op), KeyOf(op))
    ensures var t := ApplyArrive(s, client, op);
            StartsCounted(t) && ResultsLogged(t) && LogJustified(t.log)
  {
    var t := ApplyArrive(s, client, op);
    assert t.store == s.store;
    if t.log != s.log {
      var e := t.log[|s.log|];
      assert t.log == s.log + [e];
      AppendJustified(s.log, e);
    }
    forall k
      ensures Starts(t.log, k) == Starts(s.log, k) && Expiries(t.log, k) == Expiries(s.log, k)
      ensures LastStored(t.log, k) == LastStored(s.log, k)
    {
      ReuseEvents(s, client, op, k);
    }
  }

  lemma ConcludeKeepsLeases<V>(s: State<V>, id: nat)
    requires LeasesOwned(s)
    ensures LeasesOwned(ApplyConclude(s, id))
  {
    var t := ApplyConclude(s, id);
    forall other | other in t.clients
      ensures OwnsLease(t, t.clients[other])
    {
      assert other in s.clients && OwnsLease(s, s.clients[other]);
      if id in s.clients && Holds(s.clients[id]) && other != id && Holds(s.clients[other]) {
        assert OwnsLease(s, s.clients[id]);
        assert KeyOf(s.clients[other].op) != KeyOf(s.clients[id].op);
      }
    }
  }

  /** What storing a result adds: one event, and the completed record it tells of. */
  ghost predicate StoresResult<V>(s: State<V>, t: State<V>, e: Event<V>) {
    && e.Stored? && e.key in s.store.records
    && t.log == s.log + [e]
    && t.store.records == s.store.records[e.key := Completed(e.fingerprint, e.value, e.expiresAt)]
  }

  lemma StoredEvents<V>(s: State<V>, t: State<V>, e: Event<V>)
    requires StoresResult(s, t, e) && StartsCounted(s) && ResultsLogged(s)
    ensures StartsCounted(t) && ResultsLogged(t)
  {
    forall k
      ensures Starts(t.log, k) == Starts(s.log, k) && Expiries(t.log, k) == Expiries(s.log, k)
      ensures LastStored(t.log, k) == if k == e.key then Some(e) else LastStored(s.log, k)
    {
      AppendEvent(s.log, e, k);
    }
  }

  /** A failure recorded, or nothing: the log stays, and no record becomes completed. */
  lemma SilentEvents<V>(s: State<V>, t: State<V>)
    requires StartsCounted(s) && ResultsLogged(s) && t.log == s.log
    requires t.store.records.Keys == s.store.records.Keys
    requires forall k <- t.store.records ::
               t.store.records[k].Completed? ==> t.store.records[k] == s.store.records[k]
    ensures StartsCounted(t) && ResultsLogged(t)
  {
  }

  lemma ConcludeKeepsLog<V>(s: State<V>, id: nat)
    requires Inv(s)
    ensures var t := ApplyConclude(s, id);
            StartsCounted(t) && ResultsLogged(t) && LogJustified(t.log)
  {
    var t := ApplyConclude(s, id);
    if id in s.clients && Holds(s.clients[id]) {
      var client := s.clients[id];
      assert OwnsLease(s, client);
      if client.Succeeded? && t.log != s.log {
        var e := Stored(KeyOf(client.op), client.op.fingerprint, client.result,
                        s.clock + client.op.retentionSeconds * 1_000);
        assert StoresResult(s, t, e);
        StoredEvents(s, t, e);
        AppendJustified(s.log, e);
      } else {
        SilentEvents(s, t);
      }
    }
  }

  lemma InvStep<V>(s: State<V>, a: Action<V>)
    requires Inv(s)
    ensures Inv(Apply(s, a))
  {
    match a
    case Arrive(client, op) =>
      ArriveKeepsLeases(s, client, op);
      if StartsBody(s, a, KeyOf(op)) {
        StartJustified(s, client, op);
        StartKeepsCounts(s, client, op);
        StartKeepsResults(s, client, op);
      } else {
        ReuseKeepsLog(s, client, op);
      }
    case Conclude(id) =>
      ConcludeKeepsLeases(s, id);
      ConcludeKeepsLog(s, id);
    case _ =>
  }

  lemma {:induction false} InvRun<V>(s: State<V>, actions: seq<Action<V>>)
    requires Inv(s)
    ensures Inv(Run(s, actions))
    decreases |actions|
  {
    if |actions| > 0 {
      InvStep(s, actions[0]);
      InvRun(Apply(s, actions[0]), actions[1..]);
    }
  }

  // ---------------------------------------------------------------- main results

  /**
   In every interleaving a body starts under a key exactly once, plus once per expiry of a
   stored result; every expiry had a stored result whose retention was over; and every
   replay gave back the latest stored result, to a caller with its fingerprint.
   */
  lemma AtMostOnce<V>(clock: int, actions: seq<Action<V>>, key: Text)
    ensures var s := Run(Init<V>(clock), actions);
            && Starts(s.log, key) <= 1 + Expiries(s.log, key)
            && (key in s.store.records ==> Starts(s.log, key) == 1 + Expiries(s.log, key))
            && (key !in s.store.records ==> Starts(s.log, key) == 0)
            && LogJustified(s.log)
  {
    InvRun(Init<V>(clock), actions);
    var s := Run(Init<V>(clock), actions);
    RecordsStay(Init<V>(clock), actions, key);
  }

  /** A key without a record never had one. */
  lemma {:induction false} RecordsStay<V>(s: State<V>, actions: seq<Action<V>>, key: Text)
    ensures key in s.store.records ==> key in Run(s, actions).store.records
    ensures key !in Run(s, actions).store.records ==> Starts(Run(s, actions).log, key) == Starts(s.log, key)
    decreases |actions|
  {
    if |actions| > 0 {
      StartCount(s, actions[0], key);
      RecordsStay(Apply(s, actions[0]), actions[1..], key);
    }
  }

  /** No two callers ever hold the same key: protected bodies under one key never overlap. */
  lemma BodiesNeverOverlap<V>(clock: int, actions: seq<Action<V>>, a: nat, b: nat)
    ensures var s := Run(Init<V>(clock), actions);
            (a in s.clients && b in s.clients && Holds(s.clients[a]) && Holds(s.clients[b])
             && KeyOf(s.clients[a].op) == KeyOf(s.clients[b].op)) ==> a == b
  {
    InvRun(Init<V>(clock), actions);
  }

  /** The result of this caller cannot be stored at this time. */
  predicate Unstorable<V>(c: Client<V>, now: int) {
    c.Succeeded? && (!c.cloneable || AddRetention(now, c.op.retentionSeconds).None?)
  }

  /**
   The "does not own the active claim" rejections cannot happen to a caller of the protocol:
   recording a failure always succeeds, and storing a result fails exactly when the result
   cannot be copied or its expiry leaves the clock range.
   */
  lemma ConclusionIsOwned<V>(clock: int, actions: seq<Action<V>>, id: nat)
    ensures var s := Run(Init<V>(clock), actions);
            id in s.clients && Holds(s.clients[id]) ==>
              var outcome := ConcludeStore(s, s.clients[id]).1;
              && !outcome.NotOwner?
              && (!outcome.Done? <==> Unstorable(s.clients[id], s.clock))
  {
    InvRun(Init<V>(clock), actions);
  }

  predicate ActsFor<V>(a: Action<V>, id: nat) {
    match a
    case Tick(_) => false
    case Arrive(client, _) => client == id
    case BodyReturns(client, _, _) => client == id
    case BodyThrows(client) => client == id
    case Conclude(client) => client == id
  }

  /** The record under `key` cannot be touched by anyone but `id`. */
  ghost predicate Blocked<V>(s: State<V>, key: Text, record: Record<V>, id: nat) {
    && key in s.store.records
    && s.store.records[key] == record
    && (record.Pending? || record.RecoveryRequired?)
    && (forall c <- s.clients :: c != id && Holds(s.clients[c]) ==> KeyOf(s.clients[c].op) != key)
  }

  lemma BlockedNoStart<V>(s: State<V>, a: Action<V>, key: Text, record: Record<V>, id: nat)
    requires Blocked(s, key, record, id)
    ensures Starts(Apply(s, a).log, key) == Starts(s.log, key)
  {
    StartCount(s, a, key);
  }

  lemma BlockedStep<V>(s: State<V>, a: Action<V>, key: Text, record: Record<V>, id: nat)
    requires Blocked(s, key, record, id) && !ActsFor(a, id)
    ensures Blocked(Apply(s, a), key, record, id)
  {
    match a {
      case Arrive(client, op) =>
        assert KeyOf(op) == key ==> !StartsBody(s, a, key);
      case Conclude(client) =>
        if client in s.clients && Holds(s.clients[client]) {
          assert KeyOf(s.clients[client].op) != key;
        }
      case _ =>
    }
  }

  lemma {:induction false} BlockedRun<V>(
      s: State<V>, more: seq<Action<V>>, key: Text, record: Record<V>, id: nat)
    requires Blocked(s, key, record, id)
    requires forall a <- more :: !ActsFor(a, id)
    ensures Blocked(Run(s, more), key, record, id)
    ensures Starts(Run(s, more).log, key) == Starts(s.log, key)
    decreases |more|
  {
    if |more| > 0 {
      BlockedNoStart(s, more[0], key, record, id);
      BlockedStep(s, more[0], key, record, id);
      BlockedRun(Apply(s, more[0]), more[1..], key, record, id);
    }
  }

  /** A caller that stops between its claim and its conclusion blocks its key for good. */
  lemma StoppedCallerBlocksKey<V>(clock: int, actions: seq<Action<V>>, more: seq<Action<V>>, id: nat)
    requires id in Run(Init<V>(clock), actions).clients
    requires Holds(Run(Init<V>(clock), actions).clients[id])
    requires forall a <- more :: !ActsFor(a, id)
    ensures var s := Run(Init<V>(clock), actions);
            var key := KeyOf(s.clients[id].op);
            var later := Run(s, more);
            && key in later.store.records && key in s.store.records
            && later.store.records[key] == s.store.records[key]
            && later.store.records[key].Pending?
            && Starts(later.log, key) == Starts(s.log, key)
  {
    InvRun(Init<V>(clock), actions);
    var s := Run(Init<V>(clock), actions);
    var key := KeyOf(s.clients[id].op);
    BlockedRun(s, more, key, s.store.records[key], id);
  }

  /** A key whose body failed is blocked for good: nothing any caller does starts another body. */
  lemma FailureBlocksKey<V>(clock: int, actions: seq<Action<V>>, more: seq<Action<V>>, key: Text)
    requires key in Run(Init<V>(clock), actions).store.records
    requires Run(Init<V>(clock), actions).store.records[key].RecoveryRequired?
    ensures var s := Run(Init<V>(clock), actions);
            var later := Run(s, more);
            && key in later.store.records
            && later.store.records[key] == s.store.records[key]
            && Starts(later.log, key) == Starts(s.log, key)
  {
    InvRun(Init<V>(clock), actions);
    var s := Run(Init<V>(clock), actions);
    forall c | c in s.clients && Holds(s.clients[c])
      ensures KeyOf(s.clients[c].op) != key
    {
      assert OwnsLease(s, s.clients[c]);
    }
    OrphanedRun(s, more, key, s.store.records[key]);
  }

  /** No caller is between claim and conclusion under this key. */
  ghost predicate Unheld<V>(s: State<V>, key: Text) {
    forall c :: c in s.clients && Holds(s.clients[c]) ==> KeyOf(s.clients[c].op) != key
  }

  /** The record under `key` has no owner left and admits no new one. */
  ghost predicate Orphaned<V>(s: State<V>, key: Text, record: Record<V>) {
    && key in s.store.records && s.store.records[key] == record
    && (record.Pending? || record.RecoveryRequired?)
    && Unheld(s, key)
  }

  lemma OrphanedArrive<V>(s: State<V>, client: nat, op: Operation, key: Text, record: Record<V>)
    requires Orphaned(s, key, record)
    ensures Orphaned(ApplyArrive(s, client, op), key, record)
    ensures !StartsBody(s, Arrive(client, op), key)
  {
  }

  lemma OrphanedStep<V>(s: State<V>, a: Action<V>, key: Text, record: Record<V>)
    requires Orphaned(s, key, record)
    ensures Orphaned(Apply(s, a), key, record)
    ensures Starts(Apply(s, a).log, key) == Starts(s.log, key)
  {
    if a.Arrive? {
      OrphanedArrive(s, a.client, a.op, key, record);
      StartCount(s, a, key);
    } else {
      ForeignStep(s, a, key);
    }
  }

  lemma {:induction false} OrphanedRun<V>(s: State<V>, more: seq<Action<V>>, key: Text, record: Record<V>)
    requires Orphaned(s, key, record)
    ensures Orphaned(Run(s, more), key, record)
    ensures Starts(Run(s, more).log, key) == Starts(s.log, key)
    decreases |more|
  {
    if |more| > 0 {
      OrphanedStep(s, more[0], key, record);
      OrphanedRun(Apply(s, more[0]), more[1..], key, record);
    }
  }

  /**
   A caller whose result cannot be stored, because it cannot be copied or its expiry leaves the
   clock range, blocks its key for good: whatever anybody does after its failing conclusion,
   the record stays pending and no body starts.
   */
  lemma UnstorableResultBlocksKey<V>(clock: int, actions: seq<Action<V>>, more: seq<Action<V>>, id: nat)
    requires id in Run(Init<V>(clock), actions).clients
    requires Unstorable(Run(Init<V>(clock), actions).clients[id], Run(Init<V>(clock), actions).clock)
    ensures var s := Run(Init<V>(clock), actions);
            var key := KeyOf(s.clients[id].op);
            var later := Run(Apply(s, Conclude(id)), more);
            && key in s.store.records && key in later.store.records
            && later.store.records[key] == s.store.records[key]
            && later.store.records[key].Pending?
            && Starts(later.log, key) == Starts(s.log, key)
  {
    InvRun(Init<V>(clock), actions);
    var s := Run(Init<V>(clock), actions);
    var key := KeyOf(s.clients[id].op);
    assert OwnsLease(s, s.clients[id]);
    var after := Apply(s, Conclude(id));
    StartCount(s, Conclude(id), key);
    forall c | c in after.clients && Holds(after.clients[c])
      ensures KeyOf(after.clients[c].op) != key
    {
      assert c != id && OwnsLease(s, s.clients[c]);
    }
    OrphanedRun(after, more, key, s.store.records[key]);
  }

  // ---------------------------------------------------------------- keys do not interfere

  predicate SameKey(a: Operation, b: Operation) {
    a.scope == b.scope && a.operation == b.operation && a.key == b.key
  }

  lemma {:induction false} ForeignRun<V>(s: State<V>, more: seq<Action<V>>, key: Text)
    requires Unheld(s, key)
    requires forall i :: 0 <= i < |more| && more[i].Arrive? && Valid(more[i].op) ==> KeyOf(more[i].op) != key
    ensures key in Run(s, more).store.records <==> key in s.store.records
    ensures key in s.store.records ==> Run(s, more).store.records[key] == s.store.records[key]
    ensures Starts(Run(s, more).log, key) == Starts(s.log, key)
    decreases |more|
  {
    if |more| > 0 {
      ForeignStep(s, more[0], key);
      ForeignRun(Apply(s, more[0]), more[1..], key);
    }
  }

  lemma ForeignArrive<V>(s: State<V>, client: nat, op: Operation, key: Text)
    requires Unheld(s, key) && (Valid(op) ==> KeyOf(op) != key)
    ensures var t := ApplyArrive(s, client, op);
            && Unheld(t, key)
            && (key in t.store.records <==> key in s.store.records)
            && (key in s.store.records ==> t.store.records[key] == s.store.records[key])
  {
  }

  lemma ForeignConclude<V>(s: State<V>, id: nat, key: Text)
    requires Unheld(s, key)
    ensures var t := ApplyConclude(s, id);
            && Unheld(t, key)
            && (key in t.store.records <==> key in s.store.records)
            && (key in s.store.records ==> t.store.records[key] == s.store.records[key])
  {
  }

  lemma ForeignStep<V>(s: State<V>, a: Action<V>, key: Text)
    requires Unheld(s, key) && (a.Arrive? && Valid(a.op) ==> KeyOf(a.op) != key)
    ensures Unheld(Apply(s, a), key)
    ensures key in Apply(s, a).store.records <==> key in s.store.records
    ensures key in s.store.records ==> Apply(s, a).store.records[key] == s.store.records[key]
    ensures Starts(Apply(s, a).log, key) == Starts(s.log, key)
  {
    StartCount(s, a, key);
    if a.Arrive? {
      ForeignArrive(s, a.client, a.op, key);
    } else if a.Conclude? {
      ForeignConclude(s, a.client, key);
    }
  }

  /**
   Keys do not interfere: while nobody acts for an operation, callers of operations with any
   other scope, name or key leave its record alone and start no body for it, however they
   interleave.
   */
  lemma KeysIndependent<V>(clock: int, actions: seq<Action<V>>, more: seq<Action<V>>, op: Operation)
    requires Valid(op)
    requires forall c :: c in Run(Init<V>(clock), actions).clients && Holds(Run(Init<V>(clock), actions).clients[c]) ==>
               !SameKey(Run(Init<V>(clock), actions).clients[c].op, op)
    requires forall i :: 0 <= i < |more| && more[i].Arrive? ==> !SameKey(more[i].op, op)
    ensures var s := Run(Init<V>(clock), actions);
            var later := Run(s, more);
            && (KeyOf(op) in later.store.records <==> KeyOf(op) in s.store.records)
            && (KeyOf(op) in s.store.records ==> later.store.records[KeyOf(op)] == s.store.records[KeyOf(op)])
            && Starts(later.log, KeyOf(op)) == Starts(s.log, KeyOf(op))
  {
    InvRun(Init<V>(clock), actions);
    var s := Run(Init<V>(clock), actions);
    forall c | c in s.clients && Holds(s.clients[c])
      ensures KeyOf(s.clients[c].op) != KeyOf(op)
    {
      assert OwnsLease(s, s.clients[c]);
      ScopedKeyInjective(s.clients[c].op, op);
    }
    forall i | 0 <= i < |more| && more[i].Arrive? && Valid(more[i].op)
      ensures KeyOf(more[i].op) != KeyOf(op)
    {
      ScopedKeyInjective(more[i].op, op);
    }
    ForeignRun(s, more, KeyOf(op));
  }
}
