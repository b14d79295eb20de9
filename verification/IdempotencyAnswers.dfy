/**
 What every call is told, in every interleaving, read off the records and the log: when a call
 runs its body, what it is answered when it does not, what its end leaves behind, and how long
 that lasts. An operation is well formed exactly when its parts have the documented shapes.
 */
module IdempotencyAnswers {
  import opened Wrappers
  import opened Text
  import opened Idempotency
  import opened IdempotencyProtocol

  /** The key has no record, or a result whose time is over. */
  predicate KeyIsFree<V>(s: State<V>, key: Text) {
    key !in s.store.records || (s.store.records[key].Completed? && s.store.records[key].expiresAt <= s.clock)
  }

  /** Every record but that of `key` is as before. */
  ghost predicate OthersKept<V>(s: State<V>, t: State<V>, key: Text) {
    && t.store.records.Keys + {key} == s.store.records.Keys + {key}
    && forall k <- s.store.records :: k != key ==> t.store.records[k] == s.store.records[k]
  }

  /**
   A new call of a well-formed operation starts a body exactly when its key is free, under a
   lease nobody has had; a result whose time is over is logged as expired just then. Otherwise
   nothing in the store changes and the answer is a conflict exactly when the fingerprints
   differ, in progress exactly when they agree and the record is pending, a recovery exactly
   when they agree and it needs one, and else the last result stored under the key, whose time
   is not over.
   */
  lemma ArrivalIsExact<V>(clock: int, actions: seq<Action<V>>, client: nat, op: Operation)
    requires Valid(op) && client !in Run(Init<V>(clock), actions).clients
    ensures var s := Run(Init<V>(clock), actions);
            var t := Apply(s, Arrive(client, op));
            var key := KeyOf(op);
            && Starts(t.log, key) == Starts(s.log, key) + (if KeyIsFree(s, key) then 1 else 0)
            && Expiries(t.log, key)
               == Expiries(s.log, key) + (if KeyIsFree(s, key) && key in s.store.records then 1 else 0)
            && (KeyIsFree(s, key) ==>
                  && t.clients[client] == Executing(op, t.store.leaseSequence)
                  && (forall c <- s.clients :: Holds(s.clients[c]) ==> s.clients[c].lease < t.store.leaseSequence)
                  && key in t.store.records
                  && t.store.records[key] == Pending(op.fingerprint, t.store.leaseSequence, op.retentionSeconds)
                  && OthersKept(s, t, key))
            && (!KeyIsFree(s, key) ==>
                  var record := s.store.records[key];
                  var same := record.fingerprint == op.fingerprint;
                  && t.store == s.store && t.clients[client].Finished?
                  && (t.clients[client].answer == KeyReused <==> !same)
                  && (t.clients[client].answer == StillInProgress <==> same && record.Pending?)
                  && (t.clients[client].answer == RecoveryNeeded <==> same && record.RecoveryRequired?)
                  && (same && record.Completed? ==>
                        && t.clients[client].answer == Returned(record.result)
                        && s.clock < record.expiresAt
                        && LastStored(s.log, key) == Some(Stored(key, op.fingerprint, record.result, record.expiresAt))))
  {
    InvRun(Init<V>(clock), actions);
    var s := Run(Init<V>(clock), actions);
    ArrivalCounts(s, client, op);
    if KeyIsFree(s, KeyOf(op)) {
      FreeArrival(s, client, op);
    } else {
      BusyArrival(s, client, op);
    }
  }

  lemma ArrivalCounts<V>(s: State<V>, client: nat, op: Operation)
    requires Valid(op) && client !in s.clients
    ensures var t := Apply(s, Arrive(client, op));
            var key := KeyOf(op);
            && Starts(t.log, key) == Starts(s.log, key) + (if KeyIsFree(s, key) then 1 else 0)
            && Expiries(t.log, key)
               == Expiries(s.log, key) + (if KeyIsFree(s, key) && key in s.store.records then 1 else 0)
  {
    if KeyIsFree(s, KeyOf(op)) {
      StartEvents(s, client, op, KeyOf(op));
    } else {
      ReuseEvents(s, client, op, KeyOf(op));
    }
  }

  lemma FreeArrival<V>(s: State<V>, client: nat, op: Operation)
    requires Valid(op) && client !in s.clients && KeyIsFree(s, KeyOf(op)) && LeasesOwned(s)
    ensures var t := Apply(s, Arrive(client, op));
            var key := KeyOf(op);
            && t.clients[client] == Executing(op, t.store.leaseSequence)
            && (forall c <- s.clients :: Holds(s.clients[c]) ==> s.clients[c].lease < t.store.leaseSequence)
            && key in t.store.records
            && t.store.records[key] == Pending(op.fingerprint, t.store.leaseSequence, op.retentionSeconds)
            && OthersKept(s, t, key)
  {
    forall c | c in s.clients && Holds(s.clients[c])
      ensures s.clients[c].lease <= s.store.leaseSequence
    {
      assert OwnsLease(s, s.clients[c]);
    }
  }

  lemma BusyArrival<V>(s: State<V>, client: nat, op: Operation)
    requires Valid(op) && client !in s.clients && !KeyIsFree(s, KeyOf(op)) && ResultsLogged(s)
    ensures var t := Apply(s, Arrive(client, op));
            var key := KeyOf(op);
            var record := s.store.records[key];
            var same := record.fingerprint == op.fingerprint;
            && t.store == s.store && t.clients[client].Finished?
            && (t.clients[client].answer == KeyReused <==> !same)
            && (t.clients[client].answer == StillInProgress <==> same && record.Pending?)
            && (t.clients[client].answer == RecoveryNeeded <==> same && record.RecoveryRequired?)
            && (same && record.Completed? ==>
                  && t.clients[client].answer == Returned(record.result)
                  && s.clock < record.expiresAt
                  && LastStored(s.log, key) == Some(Stored(key, op.fingerprint, record.result, record.expiresAt)))
  {
  }

  /** The expiry of a result stored now is within the safe integers. */
  predicate ExpiryFits(now: int, retentionSeconds: int) {
    -9_007_199_254_740_991 <= now + 1_000 * retentionSeconds <= 9_007_199_254_740_991
  }

  /**
   The end of a call whose body returned stores its result until the retention has passed and
   returns it, if the result can be cloned and the expiry fits, and else changes nothing and says
   so; the end of one whose body threw leaves a record that needs recovery.
   */
  lemma ConclusionIsExact<V>(clock: int, actions: seq<Action<V>>, id: nat)
    requires id in Run(Init<V>(clock), actions).clients
    requires Run(Init<V>(clock), actions).clients[id].Succeeded? || Run(Init<V>(clock), actions).clients[id].Failed?
    ensures var s := Run(Init<V>(clock), actions);
            var t := Apply(s, Conclude(id));
            var c := s.clients[id];
            var key := KeyOf(c.op);
            var stored := c.Failed? || (c.cloneable && ExpiryFits(s.clock, c.op.retentionSeconds));
            && OthersKept(s, t, key) && key in t.store.records
            && (stored && c.Succeeded? ==>
                  && t.store.records[key]
                     == Completed(c.op.fingerprint, c.result, s.clock + 1_000 * c.op.retentionSeconds)
                  && LastStored(t.log, key)
                     == Some(Stored(key, c.op.fingerprint, c.result, s.clock + 1_000 * c.op.retentionSeconds))
                  && t.clients[id] == Finished(Returned(c.result)))
            && (c.Failed? ==>
                  t.store.records[key] == RecoveryRequired(c.op.fingerprint) && t.clients[id] == Finished(BodyFailed(())))
            && (!stored ==> t.store == s.store && t.clients[id] == Finished(NotCompleted))
  {
    InvRun(Init<V>(clock), actions);
    var s := Run(Init<V>(clock), actions);
    var c := s.clients[id];
    assert OwnsLease(s, c);
    if c.Succeeded? && c.cloneable && ExpiryFits(s.clock, c.op.retentionSeconds) {
      AppendEvent(s.log, Stored(KeyOf(c.op), c.op.fingerprint, c.result, s.clock + 1_000 * c.op.retentionSeconds),
                  KeyOf(c.op));
    }
  }

  lemma ClockGoesOn<V>(s: State<V>, more: seq<Action<V>>)
    ensures s.clock <= Run(s, more).clock
    decreases |more|
  {
    if |more| > 0 {
      ClockGoesOn(Apply(s, more[0]), more[1..]);
    }
  }

  /** A stored result stays as it is until its time is over, and no body starts under its key before. */
  lemma {:induction false} ResultsLast<V>(s: State<V>, more: seq<Action<V>>, key: Text)
    requires Inv(s) && key in s.store.records && s.store.records[key].Completed?
    requires Run(s, more).clock < s.store.records[key].expiresAt
    ensures key in Run(s, more).store.records && Run(s, more).store.records[key] == s.store.records[key]
    ensures Starts(Run(s, more).log, key) == Starts(s.log, key)
    decreases |more|
  {
    if |more| > 0 {
      var next := Apply(s, more[0]);
      ClockGoesOn(next, more[1..]);
      InvStep(s, more[0]);
      StartCount(s, more[0], key);
      ResultStays(s, more[0], key);
      ResultsLast(next, more[1..], key);
    }
  }

  lemma ResultStays<V>(s: State<V>, a: Action<V>, key: Text)
    requires LeasesOwned(s) && key in s.store.records && s.store.records[key].Completed?
    requires s.clock < s.store.records[key].expiresAt
    ensures key in Apply(s, a).store.records && Apply(s, a).store.records[key] == s.store.records[key]
  {
    if a.Conclude? && a.client in s.clients && Holds(s.clients[a.client]) {
      assert OwnsLease(s, s.clients[a.client]);
    }
  }

  /**
   Once a call has returned a result, every later call of the same operation and fingerprint
   returns that result, without running a body, until the retention has passed since; and the
   first one after that runs its body again, if nothing else has happened under the key.
   */
  lemma ReturnedIsReplayed<V>(
      clock: int, actions: seq<Action<V>>, id: nat, more: seq<Action<V>>, client: nat, op: Operation)
    requires id in Run(Init<V>(clock), actions).clients && Run(Init<V>(clock), actions).clients[id].Succeeded?
    requires var s := Run(Init<V>(clock), actions);
             && s.clients[id].cloneable && ExpiryFits(s.clock, s.clients[id].op.retentionSeconds)
             && Valid(op) && SameKey(op, s.clients[id].op) && op.fingerprint == s.clients[id].op.fingerprint
             && client !in Run(Apply(s, Conclude(id)), more).clients
    ensures var s := Run(Init<V>(clock), actions);
            var c := s.clients[id];
            var later := Run(Apply(s, Conclude(id)), more);
            var end := s.clock + 1_000 * c.op.retentionSeconds;
            var t := Apply(later, Arrive(client, op));
            && (later.clock < end ==> t.store == later.store && t.clients[client] == Finished(Returned(c.result)))
            && (later.clock >= end && KeyOf(op) in later.store.records
                && later.store.records[KeyOf(op)] == Completed(op.fingerprint, c.result, end) ==>
                  t.clients[client].Executing?)
  {
    ConclusionIsExact(clock, actions, id);
    var s := Run(Init<V>(clock), actions);
    InvRun(Init<V>(clock), actions);
    InvStep(s, Conclude(id));
    assert OwnsLease(s, s.clients[id]);
    ScopedKeyInjective(op, s.clients[id].op);
    var next := Apply(s, Conclude(id));
    var end := s.clock + 1_000 * s.clients[id].op.retentionSeconds;
    assert Run(next, []) == next;
    if Run(next, more).clock < end {
      ResultsLast(next, more, KeyOf(op));
    }
  }

  // ---------------------------------------------------------------- one call alone

  /** The key's record is pending, of this fingerprint and under this lease. */
  predicate HeldBy<V>(s: Store<V>, op: Operation, lease: nat) {
    && KeyOf(op) in s.records && s.records[KeyOf(op)].Pending?
    && s.records[KeyOf(op)].leaseId == lease && s.records[KeyOf(op)].fingerprint == op.fingerprint
  }

  /** On any store exactly the owner of the pending record ends it, and nobody else changes anything. */
  lemma OnlyOwnersEnd<V>(s: Store<V>, op: Operation, lease: nat, result: V, cloneable: bool, now: int)
    ensures var (completed, stored) := CompleteKey(s, op, lease, result, cloneable, now);
            var (recovering, recorded) := RequireRecovery(s, op, lease);
            && (stored == NotOwner <==> !HeldBy(s, op, lease)) && (recorded == NotOwner <==> !HeldBy(s, op, lease))
            && (!HeldBy(s, op, lease) ==> completed == s && recovering == s)
            && (HeldBy(s, op, lease) ==>
                  && recorded == Done
                  && recovering == s.(records := s.records[KeyOf(op) := RecoveryRequired(op.fingerprint)])
                  && var fits := ExpiryFits(now, s.records[KeyOf(op)].retentionSeconds);
                     && stored == (if !cloneable then NotCloneable else if fits then Done else ClockOutOfRange)
                     && (stored != Done ==> completed == s)
                     && (stored == Done ==>
                           var end := now + 1_000 * s.records[KeyOf(op)].retentionSeconds;
                           completed == s.(records := s.records[KeyOf(op) := Completed(op.fingerprint, result, end)])))
  {
  }

  lemma ThreeSteps<V>(s: State<V>, a: Action<V>, b: Action<V>, c: Action<V>)
    ensures Run(s, [a, b, c]) == Apply(Apply(Apply(s, a), b), c)
  {
    assert [a, b, c][1..] == [b, c] && [b, c][1..] == [c] && [c][1..] == [];
    assert Run(Apply(s, a), [b, c]) == Run(Apply(Apply(s, a), b), [c]);
    assert Run(Apply(Apply(s, a), b), [c]) == Run(Apply(Apply(Apply(s, a), b), c), []);
  }

  /** The answer, without the error of a failed body. */
  function AnswerOf<V, E>(result: Execution<V, E>): Answer<V> {
    match result
    case Returned(value) => Returned(value)
    case Invalid(reason) => Invalid(reason)
    case KeyReused => KeyReused
    case StillInProgress => StillInProgress
    case RecoveryNeeded => RecoveryNeeded
    case BodyFailed(_) => BodyFailed(())
    case BodyFailedUnrecorded(_) => BodyFailedUnrecorded(())
    case NotCompleted => NotCompleted
  }

  /** The steps of a call that nobody interrupts, once it has arrived. */
  function BodySteps<V, E>(client: nat, body: Result<V, E>, cloneable: bool, elapsed: nat): seq<Action<V>> {
    [if body.Ok? then BodyReturns(client, body.value, cloneable) else BodyThrows(client), Tick(elapsed), Conclude(client)]
  }

  /** The call is over with this store and this answer. */
  ghost predicate EndsWith<V, E>(t: State<V>, client: nat, after: Store<V>, result: Execution<V, E>) {
    after == t.store && client in t.clients && t.clients[client] == Finished(AnswerOf(result))
  }

  lemma BusyAlone<V, E>(s: State<V>, client: nat, op: Operation, body: Result<V, E>, cloneable: bool, end: int)
    requires client !in s.clients && Valid(op) && !KeyIsFree(s, KeyOf(op))
    ensures var (after, result) := ExecuteAlone(s.store, op, body, cloneable, s.clock, end);
            EndsWith(Apply(s, Arrive(client, op)), client, after, result) && !result.BodyFailed?
  {
  }

  lemma FreeAlone<V, E>(s: State<V>, client: nat, op: Operation, body: Result<V, E>, cloneable: bool, elapsed: nat)
    requires client !in s.clients && Valid(op) && KeyIsFree(s, KeyOf(op))
    ensures var (after, result) := ExecuteAlone(s.store, op, body, cloneable, s.clock, s.clock + elapsed);
            var t := Run(Apply(s, Arrive(client, op)), BodySteps(client, body, cloneable, elapsed));
            EndsWith(t, client, after, result) && (result.BodyFailed? ==> body == Err(result.error))
  {
    var steps := BodySteps(client, body, cloneable, elapsed);
    ThreeSteps(Apply(s, Arrive(client, op)), steps[0], Tick(elapsed), Conclude(client));
  }

  /**
   A whole call run alone does what its steps do: it is refused for an operation that is not well
   formed; it ends on arrival if its key is not free; and else it runs its body, and a body's own
   error comes back.
   */
  lemma AloneIsACall<V, E>(
      s: State<V>, client: nat, op: Operation, body: Result<V, E>, cloneable: bool, elapsed: nat)
    requires client !in s.clients
    ensures var (after, result) := ExecuteAlone(s.store, op, body, cloneable, s.clock, s.clock + elapsed);
            var steps := if KeyIsFree(s, KeyOf(op)) then BodySteps(client, body, cloneable, elapsed) else [];
            if FirstFailing(OperationChecks(op)).Some?
            then after == s.store && result == Invalid(FirstFailing(OperationChecks(op)).value)
            else
              && EndsWith(Run(Apply(s, Arrive(client, op)), steps), client, after, result)
              && (result.BodyFailed? ==> body == Err(result.error))
  {
    ValidationIsExact(op);
    if Valid(op) {
      if KeyIsFree(s, KeyOf(op)) {
        FreeAlone(s, client, op, body, cloneable, elapsed);
      } else {
        BusyAlone(s, client, op, body, cloneable, s.clock + elapsed);
      }
    }
  }

  // ---------------------------------------------------------------- well-formed operations

  predicate Digit(u: Unit) { 48 <= u <= 57 }
  predicate Small(u: Unit) { 97 <= u <= 122 }
  predicate Letter(u: Unit) { Small(u) || 65 <= u <= 90 }

  /** A letter or digit first, then letters, digits, dots, underscores, colons and hyphens. */
  predicate Named(t: Text, shortest: nat, longest: nat) {
    && shortest <= |t| <= longest && |t| > 0 && (Letter(t[0]) || Digit(t[0]))
    && forall i :: 1 <= i < |t| ==> Letter(t[i]) || Digit(t[i]) || t[i] in {46, 95, 58, 45}
  }

  predicate NamesOperation(t: Text) {
    && 3 <= |t| <= 64 && Small(t[0])
    && forall i :: 1 <= i < |t| ==> Small(t[i]) || Digit(t[i]) || t[i] in {46, 45}
  }

  predicate Hexadecimal(t: Text) {
    |t| == 64 && forall i :: 0 <= i < |t| ==> Digit(t[i]) || 97 <= t[i] <= 102
  }

  /** What an operation must meet, in the order in which it is checked: shapes, and a retention of a minute to a year. */
  function OperationChecks(op: Operation): seq<(bool, ValidationError)> {
    [(Named(op.scope, 3, 192), InvalidScope), (NamesOperation(op.operation), InvalidOperation),
     (Named(op.key, 8, 128), InvalidKey), (Hexadecimal(op.fingerprint), InvalidFingerprint),
     (60 <= op.retentionSeconds <= 365 * 24 * 60 * 60, InvalidRetention)]
  }

  lemma ValidationIsExact(op: Operation)
    ensures ValidateOperation(op) == FirstFailing(OperationChecks(op))
  {
    var checks := OperationChecks(op);
    forall k | 0 <= k < 5 {
      FailingFrom(checks, k);
    }
    assert checks == checks[0..] && checks[5..] == [];
    NamedIff(op.scope, 2, 191);
    NamedIff(op.key, 7, 127);
    OperationIff(op.operation);
    FingerprintShape(op.fingerprint);
  }

  lemma OperationIff(t: Text)
    ensures Matches(t, IsLower, IsNamespace, 2, 63) <==> NamesOperation(t)
  {
    if |t| > 0 {
      TailShape(t);
    }
  }

  lemma FingerprintShape(t: Text)
    ensures (forall u <- t :: IsLowerHex(u)) <==> forall i :: 0 <= i < |t| ==> Digit(t[i]) || 97 <= t[i] <= 102
  {
    assert forall i :: 0 <= i < |t| ==> t[i] in t;
  }

  lemma TailShape(t: Text)
    requires |t| > 0
    ensures forall i :: 1 <= i < |t| ==> t[i] in t[1..]
    ensures forall u <- t[1..] :: exists i :: 1 <= i < |t| && t[i] == u
  {
    assert forall i :: 1 <= i < |t| ==> t[i] == t[1..][i - 1];
  }

  lemma NamedIff(t: Text, shortest: nat, longest: nat)
    ensures Matches(t, IsAlphanumeric, IsSafe, shortest, longest) <==> Named(t, shortest + 1, longest + 1)
  {
    if |t| > 0 {
      TailShape(t);
    }
  }
}
