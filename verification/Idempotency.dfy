/**
 The in-memory idempotency authority: its records, the three transitions that the
 store performs, and the class that performs them in place.
 */
module Idempotency {
  import opened Wrappers
  import opened Text

  datatype Operation = Operation(
    scope: Text, operation: Text, key: Text, fingerprint: Text, retentionSeconds: int)

  /** A record of the store. A lease is the sequence number its identifier carries. */
  datatype Record<V> =
    | Pending(fingerprint: Text, leaseId: nat, retentionSeconds: int)
    | Completed(fingerprint: Text, result: V, expiresAt: int)
    | RecoveryRequired(fingerprint: Text)

  datatype ClaimReply<V> =
    | Claimed(leaseId: nat)
    | Replay(result: V)
    | Conflict
    | InProgress
    | NeedsRecovery

  datatype Transition = Done | NotOwner | NotCloneable | ClockOutOfRange

  datatype Store<V> = Store(records: map<Text, Record<V>>, leaseSequence: nat)

  const MAX_SAFE_INTEGER := 9_007_199_254_740_991

  // ---------------------------------------------------------------- validation

  datatype ValidationError =
    InvalidScope | InvalidOperation | InvalidKey | InvalidFingerprint | InvalidRetention

  predicate IsLower(u: Unit) { 97 <= u <= 122 }

  predicate IsAlphanumeric(u: Unit) { IsLower(u) || 65 <= u <= 90 || IsDigit(u) }

  /** `[A-Za-z0-9._:-]` */
  predicate IsSafe(u: Unit) { IsAlphanumeric(u) || u == 46 || u == 95 || u == COLON || u == MINUS }

  /** `[a-z0-9.-]` */
  predicate IsNamespace(u: Unit) { IsLower(u) || IsDigit(u) || u == 46 || u == MINUS }

  /** `[a-f0-9]` */
  predicate IsLowerHex(u: Unit) { 97 <= u <= 102 || IsDigit(u) }

  /** One unit in `first`, then `minimum` to `maximum` units in `rest`. */
  predicate Matches(t: Text, first: Unit -> bool, rest: Unit -> bool, minimum: nat, maximum: nat) {
    minimum < |t| <= maximum + 1 && first(t[0]) && forall u <- t[1..] :: rest(u)
  }

  predicate IsValidIdempotencyKey(value: Text) {
    Matches(value, IsAlphanumeric, IsSafe, 7, 127)
  }

  function ValidateOperation(op: Operation): Option<ValidationError> {
    if !Matches(op.scope, IsAlphanumeric, IsSafe, 2, 191) then Some(InvalidScope)
    else if !Matches(op.operation, IsLower, IsNamespace, 2, 63) then Some(InvalidOperation)
    else if !IsValidIdempotencyKey(op.key) then Some(InvalidKey)
    else if |op.fingerprint| != 64 || !forall u <- op.fingerprint :: IsLowerHex(u) then Some(InvalidFingerprint)
    else if op.retentionSeconds < 60 || op.retentionSeconds > 31_536_000 then Some(InvalidRetention)
    else None
  }

  predicate Valid(op: Operation) {
    ValidateOperation(op).None?
  }

  function ToScopedKey(scope: Text, operation: Text, key: Text): Text {
    scope + ([NUL] + (operation + ([NUL] + key)))
  }

  function KeyOf(op: Operation): Text {
    ToScopedKey(op.scope, op.operation, op.key)
  }

  lemma {:induction false} SplitAtNul(a: Text, x: Text, b: Text, y: Text)
    requires NUL !in a && NUL !in b
    requires a + ([NUL] + x) == b + ([NUL] + y)
    ensures a == b && x == y
  {
    var s, t := a + ([NUL] + x), b + ([NUL] + y);
    assert s[0] == (if a == [] then NUL else a[0]);
    assert t[0] == (if b == [] then NUL else b[0]);
    if a == [] || b == [] {
      assert x == s[1..] && y == t[1..];
    } else {
      assert s[1..] == a[1..] + ([NUL] + x);
      assert t[1..] == b[1..] + ([NUL] + y);
      SplitAtNul(a[1..], x, b[1..], y);
      assert a == [a[0]] + a[1..] && b == [b[0]] + b[1..];
    }
  }

  /** The NUL join keeps validated scopes, operations and keys apart. */
  lemma ScopedKeyInjective(a: Operation, b: Operation)
    requires Valid(a) && Valid(b)
    ensures KeyOf(a) == KeyOf(b) <==> a.scope == b.scope && a.operation == b.operation && a.key == b.key
  {
    if KeyOf(a) == KeyOf(b) {
      HasNoNul(a.scope, IsAlphanumeric, IsSafe, 2, 191);
      HasNoNul(b.scope, IsAlphanumeric, IsSafe, 2, 191);
      HasNoNul(a.operation, IsLower, IsNamespace, 2, 63);
      HasNoNul(b.operation, IsLower, IsNamespace, 2, 63);
      SplitAtNul(a.scope, a.operation + ([NUL] + a.key), b.scope, b.operation + ([NUL] + b.key));
      SplitAtNul(a.operation, a.key, b.operation, b.key);
    }
  }

  lemma HasNoNul(t: Text, first: Unit -> bool, rest: Unit -> bool, minimum: nat, maximum: nat)
    requires Matches(t, first, rest, minimum, maximum)
    requires !first(NUL) && !rest(NUL)
    ensures NUL !in t
  {
    assert t == [t[0]] + t[1..];
  }

  // ---------------------------------------------------------------- transitions

  function Live<V>(records: map<Text, Record<V>>, key: Text, now: int): Option<Record<V>> {
    if key !in records || (records[key].Completed? && records[key].expiresAt <= now) then None
    else Some(records[key])
  }

  /** What a claim answers when the key already has an unexpired record. */
  function Reuse<V>(record: Record<V>, op: Operation): ClaimReply<V> {
    if record.fingerprint != op.fingerprint then Conflict
    else
      match record
      case Pending(_, _, _) => InProgress
      case RecoveryRequired(_) => NeedsRecovery
      case Completed(_, result, _) => Replay(result)
  }

  function ClaimKey<V>(s: Store<V>, op: Operation, now: int): (Store<V>, ClaimReply<V>) {
    var existing := Live(s.records, KeyOf(op), now);
    if existing.Some? then (s, Reuse(existing.value, op))
    else
      var lease := s.leaseSequence + 1;
      (Store(s.records[KeyOf(op) := Pending(op.fingerprint, lease, op.retentionSeconds)], lease), Claimed(lease))
  }

  predicate Owns<V>(s: Store<V>, op: Operation, leaseId: nat) {
    && KeyOf(op) in s.records
    && s.records[KeyOf(op)].Pending?
    && s.records[KeyOf(op)].fingerprint == op.fingerprint
    && s.records[KeyOf(op)].leaseId == leaseId
  }

  /** The expiry of a result, unless it leaves the safe integers. */
  function AddRetention(now: int, retentionSeconds: int): Option<int> {
    var expiresAt := now + retentionSeconds * 1_000;
    if -MAX_SAFE_INTEGER <= expiresAt <= MAX_SAFE_INTEGER then Some(expiresAt) else None
  }

  /** Stores a copy of the result; `cloneable` says whether the platform can copy it. */
  function CompleteKey<V>(s: Store<V>, op: Operation, leaseId: nat, result: V, cloneable: bool, now: int)
    : (Store<V>, Transition)
  {
    if !Owns(s, op, leaseId) then (s, NotOwner)
    else if !cloneable then (s, NotCloneable)
    else
      var expiresAt := AddRetention(now, s.records[KeyOf(op)].retentionSeconds);
      if expiresAt.None? then (s, ClockOutOfRange)
      else (s.(records := s.records[KeyOf(op) := Completed(op.fingerprint, result, expiresAt.value)]), Done)
  }

  function RequireRecovery<V>(s: Store<V>, op: Operation, leaseId: nat): (Store<V>, Transition) {
    if !Owns(s, op, leaseId) then (s, NotOwner)
    else (s.(records := s.records[KeyOf(op) := RecoveryRequired(op.fingerprint)]), Done)
  }

  // ---------------------------------------------------------------- the class

  class InMemoryIdempotencyStore<V> {
    var records: map<Text, Record<V>>
    var leaseSequence: nat

    ghost function State(): Store<V>
      reads this
    {
      Store(records, leaseSequence)
    }

    constructor ()
      ensures State() == Store(map[], 0)
    {
      records := map[];
      leaseSequence := 0;
    }

    method Claim(command: Operation, now: int) returns (reply: ClaimReply<V>)
      modifies this
      ensures (State(), reply) == ClaimKey(old(State()), command, now)
    {
      var scopedKey := ToScopedKey(command.scope, command.operation, command.key);
      if scopedKey in records {
        var existing := records[scopedKey];
        if existing.Completed? && existing.expiresAt <= now {
          records := records - {scopedKey};
        } else if existing.fingerprint != command.fingerprint {
          return Conflict;
        } else if existing.Pending? {
          return InProgress;
        } else if existing.RecoveryRequired? {
          return NeedsRecovery;
        } else {
          return Replay(existing.result);
        }
      }
      leaseSequence := leaseSequence + 1;
      records := records[scopedKey := Pending(command.fingerprint, leaseSequence, command.retentionSeconds)];
      assert records == old(records)[scopedKey := records[scopedKey]];
      reply := Claimed(leaseSequence);
    }

    method Complete(command: Operation, leaseId: nat, result: V, cloneable: bool, now: int)
      returns (outcome: Transition)
      modifies this
      ensures (State(), outcome) == CompleteKey(old(State()), command, leaseId, result, cloneable, now)
    {
      var scopedKey := ToScopedKey(command.scope, command.operation, command.key);
      if scopedKey !in records {
        return NotOwner;
      }
      var existing := records[scopedKey];
      if !existing.Pending? || existing.fingerprint != command.fingerprint || existing.leaseId != leaseId {
        return NotOwner;
      }
      if !cloneable {
        return NotCloneable;
      }
      var expiresAt := AddRetention(now, existing.retentionSeconds);
      if expiresAt.None? {
        return ClockOutOfRange;
      }
      records := records[scopedKey := Completed(existing.fingerprint, result, expiresAt.value)];
      outcome := Done;
    }

    method NeedRecovery(command: Operation, leaseId: nat) returns (outcome: Transition)
      modifies this
      ensures (State(), outcome) == RequireRecovery(old(State()), command, leaseId)
    {
      var scopedKey := ToScopedKey(command.scope, command.operation, command.key);
      if scopedKey !in records {
        return NotOwner;
      }
      var existing := records[scopedKey];
      if !existing.Pending? || existing.fingerprint != command.fingerprint || existing.leaseId != leaseId {
        return NotOwner;
      }
      records := records[scopedKey := RecoveryRequired(existing.fingerprint)];
      outcome := Done;
    }
  }

  // ------------------------------------------- one caller, without interference

  datatype Execution<V, E> =
    | Returned(value: V)
    | Invalid(reason: ValidationError)
    | KeyReused
    | StillInProgress
    | RecoveryNeeded
    | BodyFailed(error: E)
    | BodyFailedUnrecorded(error: E)
    | NotCompleted

  /** One whole call of the protocol, claimed at `start` and completed at `end`. */
  function ExecuteAlone<V, E>(
      s: Store<V>, op: Operation, body: Result<V, E>, cloneable: bool, start: int, end: int)
    : (r: (Store<V>, Execution<V, E>))
  {
    if !Valid(op) then (s, Invalid(ValidateOperation(op).value))
    else
      var (claimed, reply) := ClaimKey(s, op, start);
      match reply
      case Replay(result) => (claimed, Returned(result))
      case Conflict => (claimed, KeyReused)
      case InProgress => (claimed, StillInProgress)
      case NeedsRecovery => (claimed, RecoveryNeeded)
      case Claimed(lease) =>
        match body
        case Err(error) =>
          var (after, outcome) := RequireRecovery(claimed, op, lease);
          (after, if outcome.Done? then BodyFailed(error) else BodyFailedUnrecorded(error))
        case Ok(value) =>
          var (after, outcome) := CompleteKey(claimed, op, lease, value, cloneable, end);
          (after, if outcome.Done? then Returned(value) else NotCompleted)
  }

  /** `executeIdempotently`, where `body` is what the protected operation would do. */
  method ExecuteIdempotently<V, E>(
      store: InMemoryIdempotencyStore<V>, op: Operation, body: Result<V, E>, cloneable: bool, start: int, end: int)
    returns (result: Execution<V, E>)
    modifies store
    ensures (store.State(), result) == ExecuteAlone(old(store.State()), op, body, cloneable, start, end)
  {
    var invalid := ValidateOperation(op);
    if invalid.Some? {
      return Invalid(invalid.value);
    }
    var claim := store.Claim(op, start);
    if claim.Replay? {
      return Returned(claim.result);
    }
    if claim.Conflict? {
      return KeyReused;
    }
    if claim.InProgress? {
      return StillInProgress;
    }
    if claim.NeedsRecovery? {
      return RecoveryNeeded;
    }
    if body.Err? {
      var recorded := store.NeedRecovery(op, claim.leaseId);
      if !recorded.Done? {
        return BodyFailedUnrecorded(body.error);
      }
      return BodyFailed(body.error);
    }
    var completed := store.Complete(op, claim.leaseId, body.value, cloneable, end);
    result := if completed.Done? then Returned(body.value) else NotCompleted;
  }

  /**
   A call that ran its body and returned is replayed, unchanged, by every later call of
   the same operation until the retention has passed: `body` is not consulted again.
   */
  lemma ReplayUntilExpiry<V, E>(
      s: Store<V>, op: Operation, value: V, start: int, end: int,
      other: Result<V, E>, cloneable: bool, later: int, after: int)
    requires Valid(op) && Live(s.records, KeyOf(op), start).None?
    requires AddRetention(end, op.retentionSeconds).Some?
    requires later < end + op.retentionSeconds * 1_000
    ensures var first := ExecuteAlone<V, E>(s, op, Ok(value), true, start, end);
            && first.1 == Returned(value)
            && ExecuteAlone(first.0, op, other, cloneable, later, after) == (first.0, Returned(value))
  {
  }

  /** After a failed body the key never runs a body again: every later call leaves the store as it is. */
  lemma FailureIsSticky<V, E>(
      s: Store<V>, op: Operation, error: E, start: int, end: int,
      again: Operation, other: Result<V, E>, cloneable: bool, later: int, after: int)
    requires Valid(op) && Valid(again) && Live(s.records, KeyOf(op), start).None?
    requires KeyOf(again) == KeyOf(op)
    ensures var first := ExecuteAlone<V, E>(s, op, Err(error), cloneable, start, end);
            && first.1 == BodyFailed(error)
            && ExecuteAlone(first.0, again, other, cloneable, later, after)
            == (first.0, if again.fingerprint == op.fingerprint then RecoveryNeeded else KeyReused)
  {
  }
}
