/**
 Browser sessions: creation, validation, rotation and revocation over one session table.
 A session identifier and the token that names it are fresh random values in the program;
 here both are the position of the row in insertion order, and any other token is unknown.
 A family identifier is the position of the family's first row.
 Times are milliseconds. Every transaction is one serializable step.
 */
module Sessions {
  import opened Wrappers

  type AccountId = nat

  datatype AccountStatus = AccountActive | AccountSuspended | AccountClosed

  datatype Account = Account(status: AccountStatus, sessionVersion: nat)

  datatype Assurance = Base | Strong | PhishingResistant

  datatype Status = Active | Rotated | Revoked | Expired

  datatype Reason =
    | RotatedTokenReuse
    | AccountStateChanged
    | SessionExpired
    | UserLogout
    | AccountWideRevocation
    | UserSessionRevocation

  datatype Revocation = Revocation(at: int, reason: Reason)

  datatype Session = Session(
    account: AccountId, family: nat, parent: Option<nat>, version: nat, assurance: Assurance,
    status: Status, createdAt: int, lastSeenAt: int, idleExpiresAt: int, absoluteExpiresAt: int,
    revocation: Option<Revocation>)

  datatype Database = Database(accounts: map<AccountId, Account>, sessions: seq<Session>)

  datatype Actor = Actor(account: AccountId, assurance: Assurance, session: nat)

  const MINUTE := 60_000

  /** Idle and absolute lifetimes, within the bounds the authority accepts. */
  datatype Lifetimes = Lifetimes(idle: int, absolute: int)

  predicate Bounded(t: Lifetimes) {
    5 * MINUTE <= t.idle <= 24 * 60 * MINUTE && t.idle <= t.absolute <= 30 * 24 * 60 * MINUTE
  }

  type Policy = t: Lifetimes | Bounded(t) witness Lifetimes(30 * MINUTE, 12 * 60 * MINUTE)

  /** The authority's options, or the refusal of lifetimes out of bounds. */
  function MakePolicy(idle: Option<int>, absolute: Option<int>): Option<Policy> {
    var t := Lifetimes(
      if idle.Some? then idle.value else 30 * MINUTE,
      if absolute.Some? then absolute.value else 12 * 60 * MINUTE);
    if Bounded(t) then Some(t) else None
  }

  function Min(a: int, b: int): int {
    if a < b then a else b
  }

  // ---------------------------------------------------------------- transitions

  /** Why a stored session does or does not admit its bearer at `now`. */
  predicate Usable(db: Database, i: nat, now: int) {
    && i < |db.sessions|
    && db.sessions[i].status == Active
    && db.sessions[i].account in db.accounts
    && db.accounts[db.sessions[i].account].status == AccountActive
    && db.sessions[i].version == db.accounts[db.sessions[i].account].sessionVersion
    && db.sessions[i].idleExpiresAt > now
    && db.sessions[i].absoluteExpiresAt > now
  }

  function ActorOf(s: Session, i: nat): Actor {
    Actor(s.account, s.assurance, i)
  }

  /** Ends the active sessions chosen by `which`. */
  function End(sessions: seq<Session>, which: (nat, Session) -> bool, status: Status, now: int, reason: Reason)
    : (r: seq<Session>)
    ensures |r| == |sessions|
    ensures forall i :: 0 <= i < |r| ==>
              r[i] == if sessions[i].status == Active && which(i, sessions[i])
                      then sessions[i].(status := status, revocation := Some(Revocation(now, reason)))
                      else sessions[i]
  {
    seq(|sessions|, i requires 0 <= i < |sessions| =>
      if sessions[i].status == Active && which(i, sessions[i])
      then sessions[i].(status := status, revocation := Some(Revocation(now, reason)))
      else sessions[i])
  }

  /** The row a new grant inserts. The table refuses a row that is idle as soon as it is created. */
  function NewSession(
      policy: Policy, account: AccountId, version: nat, assurance: Assurance,
      family: nat, parent: Option<nat>, absolute: int, now: int): Session
  {
    Session(account, family, parent, version, assurance, Active, now, now,
            Min(now + policy.idle, absolute), absolute, None)
  }

  predicate RowAccepted(s: Session) {
    s.createdAt < s.idleExpiresAt <= s.absoluteExpiresAt
  }

  function Create(db: Database, policy: Policy, account: AccountId, now: int): (Database, Option<nat>) {
    if account !in db.accounts || db.accounts[account].status != AccountActive then (db, None)
    else
      var id := |db.sessions|;
      var row := NewSession(policy, account, db.accounts[account].sessionVersion, Base, id, None,
                            now + policy.absolute, now);
      (db.(sessions := db.sessions + [row]), Some(id))
  }

  function Validate(db: Database, policy: Policy, token: nat, now: int): (Database, Option<Actor>) {
    if token >= |db.sessions| then (db, None)
    else
      var stored := db.sessions[token];
      if stored.status == Rotated then
        (db.(sessions := End(db.sessions, (i, s: Session) => s.family == stored.family, Revoked, now, RotatedTokenReuse)),
         None)
      else if !Usable(db, token, now) then
        var expired := stored.idleExpiresAt <= now || stored.absoluteExpiresAt <= now;
        (db.(sessions := End(db.sessions, (i, s) => i == token,
                             if expired then Expired else Revoked, now,
                             if expired then SessionExpired else AccountStateChanged)),
         None)
      else
        (db.(sessions := db.sessions[token := stored.(
               idleExpiresAt := Min(now + policy.idle, stored.absoluteExpiresAt), lastSeenAt := now)]),
         Some(ActorOf(stored, token)))
  }

  datatype RotateOutcome = Refused | Granted(session: nat) | RolledBack

  /** Rotation reads the clock twice: once for the checks, once for the new row. */
  function Rotate(db: Database, policy: Policy, token: nat, now: int, insertedAt: int): (Database, RotateOutcome) {
    if !Usable(db, token, now) then (db, Refused)
    else
      var stored := db.sessions[token];
      var id := |db.sessions|;
      var row := NewSession(policy, stored.account, stored.version, stored.assurance, stored.family,
                            Some(token), stored.absoluteExpiresAt, insertedAt);
      if !RowAccepted(row) then (db, RolledBack)
      else (db.(sessions := db.sessions[token := stored.(status := Rotated)] + [row]), Granted(id))
  }

  function Revoke(db: Database, token: nat, now: int): (Database, bool) {
    (db.(sessions := End(db.sessions, (i, s) => i == token, Revoked, now, UserLogout)),
     token < |db.sessions| && db.sessions[token].status == Active)
  }

  function RevokeAll(db: Database, account: AccountId, now: int): Database {
    if account !in db.accounts then db
    else
      var row := db.accounts[account];
      Database(db.accounts[account := row.(sessionVersion := row.sessionVersion + 1)],
               End(db.sessions, (i, s: Session) => s.account == account, Revoked, now, AccountWideRevocation))
  }

  function RevokeById(db: Database, account: AccountId, id: nat, now: int): (Database, bool) {
    (db.(sessions := End(db.sessions, (i, s: Session) => i == id && s.account == account, Revoked, now, UserSessionRevocation)),
     id < |db.sessions| && db.sessions[id].status == Active && db.sessions[id].account == account)
  }

  /** The sessions shown to an account's owner. */
  function ListActive(db: Database, account: AccountId, now: int): set<nat> {
    set i | 0 <= i < |db.sessions|
         && db.sessions[i].account == account
         && db.sessions[i].status == Active
         && db.sessions[i].idleExpiresAt > now
         && db.sessions[i].absoluteExpiresAt > now
  }

  /** The check every marketplace command repeats on the actor it was given. */
  predicate IsSessionActive(db: Database, actor: Actor, now: int) {
    && actor.session < |db.sessions|
    && var row := db.sessions[actor.session];
       && row.account == actor.account
       && row.assurance == actor.assurance
       && row.status == Active
       && row.account in db.accounts
       && db.accounts[row.account].status == AccountActive
       && row.version == db.accounts[row.account].sessionVersion
       && row.idleExpiresAt > now
       && row.absoluteExpiresAt > now
  }

  // ---------------------------------------------------------------- the class

  class PostgresSessionAuthority {
    const policy: Policy
    var accounts: map<AccountId, Account>
    var sessions: seq<Session>

    ghost function State(): Database
      reads this
    {
      Database(accounts, sessions)
    }

    constructor (policy: Policy, accounts: map<AccountId, Account>)
      ensures this.policy == policy && State() == Database(accounts, [])
    {
      this.policy := policy;
      this.accounts := accounts;
      sessions := [];
    }

    /** The authority for these options; nothing when they are refused. */
    static method Open(idle: Option<int>, absolute: Option<int>, accounts: map<AccountId, Account>)
      returns (authority: PostgresSessionAuthority?)
      ensures authority == null <==> MakePolicy(idle, absolute).None?
      ensures authority != null ==>
                && fresh(authority) && authority.State() == Database(accounts, [])
                && Some(authority.policy) == MakePolicy(idle, absolute)
    {
      var policy := MakePolicy(idle, absolute);
      if policy.None? {
        return null;
      }
      authority := new PostgresSessionAuthority(policy.value, accounts);
    }

    method CreateSession(account: AccountId, now: int) returns (granted: Option<nat>)
      modifies `sessions
      ensures (State(), granted) == Create(old(State()), policy, account, now)
    {
      if account !in accounts || accounts[account].status != AccountActive {
        return None;
      }
      var id := |sessions|;
      sessions := sessions + [NewSession(policy, account, accounts[account].sessionVersion, Base, id, None,
                                         now + policy.absolute, now)];
      granted := Some(id);
    }

    /** Marks every active session chosen by `which`, and counts them. */
    method UpdateMany(which: (nat, Session) -> bool, status: Status, now: int, reason: Reason) returns (count: nat)
      requires status != Active
      modifies `sessions
      ensures sessions == End(old(sessions), which, status, now, reason)
      ensures count == |set i | 0 <= i < |old(sessions)| && old(sessions)[i].status == Active && which(i, old(sessions)[i])|
    {
      count := 0;
      var before := sessions;
      ghost var hit: set<nat> := {};
      for k := 0 to |before|
        invariant |sessions| == |before|
        invariant forall i :: 0 <= i < k ==> sessions[i] == End(before, which, status, now, reason)[i]
        invariant forall i :: k <= i < |before| ==> sessions[i] == before[i]
        invariant hit == set i | 0 <= i < k && before[i].status == Active && which(i, before[i])
        invariant count == |hit|
      {
        if sessions[k].status == Active && which(k, sessions[k]) {
          sessions := sessions[k := sessions[k].(status := status, revocation := Some(Revocation(now, reason)))];
          count := count + 1;
          hit := hit + {k};
        }
      }
    }

    method ValidateToken(token: nat, now: int) returns (actor: Option<Actor>)
      modifies `sessions
      ensures (State(), actor) == Validate(old(State()), policy, token, now)
    {
      if token >= |sessions| {
        return None;
      }
      var stored := sessions[token];
      if stored.status == Rotated {
        var ended := UpdateMany((i, s: Session) => s.family == stored.family, Revoked, now, RotatedTokenReuse);
        return None;
      }
      if stored.status != Active
         || stored.account !in accounts
         || accounts[stored.account].status != AccountActive
         || stored.version != accounts[stored.account].sessionVersion
         || stored.idleExpiresAt <= now
         || stored.absoluteExpiresAt <= now
      {
        var expired := stored.idleExpiresAt <= now || stored.absoluteExpiresAt <= now;
        var ended := UpdateMany((i, s) => i == token, if expired then Expired else Revoked, now,
                                if expired then SessionExpired else AccountStateChanged);
        return None;
      }
      var idleExpiresAt := Min(now + policy.idle, stored.absoluteExpiresAt);
      sessions := sessions[token := stored.(idleExpiresAt := idleExpiresAt, lastSeenAt := now)];
      actor := Some(ActorOf(stored, token));
    }

    method RotateToken(token: nat, now: int, insertedAt: int) returns (outcome: RotateOutcome)
      modifies `sessions
      ensures (State(), outcome) == Rotate(old(State()), policy, token, now, insertedAt)
    {
      if token >= |sessions| {
        return Refused;
      }
      var stored := sessions[token];
      if stored.status != Active
         || stored.account !in accounts
         || accounts[stored.account].status != AccountActive
         || stored.version != accounts[stored.account].sessionVersion
         || stored.idleExpiresAt <= now
         || stored.absoluteExpiresAt <= now
      {
        return Refused;
      }
      var row := NewSession(policy, stored.account, accounts[stored.account].sessionVersion, stored.assurance,
                            stored.family, Some(token), stored.absoluteExpiresAt, insertedAt);
      if !RowAccepted(row) {
        return RolledBack;
      }
      outcome := Granted(|sessions|);
      sessions := sessions[token := stored.(status := Rotated)] + [row];
    }

    method RevokeToken(token: nat, now: int) returns (revoked: bool)
      modifies `sessions
      ensures (State(), revoked) == Revoke(old(State()), token, now)
    {
      ghost var before := sessions;
      var which := (i: nat, s: Session) => i == token;
      var count := UpdateMany(which, Revoked, now, UserLogout);
      assert (set i | 0 <= i < |before| && before[i].status == Active && which(i, before[i]))
          == if token < |before| && before[token].status == Active then {token} else {};
      assert sessions == Revoke(old(State()), token, now).0.sessions;
      assert count == if token < |before| && before[token].status == Active then 1 else 0;
      revoked := count == 1;
    }

    method RevokeSession(account: AccountId, id: nat, now: int) returns (revoked: bool)
      modifies `sessions
      ensures (State(), revoked) == RevokeById(old(State()), account, id, now)
    {
      ghost var before := sessions;
      var which := (i: nat, s: Session) => i == id && s.account == account;
      var count := UpdateMany(which, Revoked, now, UserSessionRevocation);
      ghost var hit := id < |before| && before[id].status == Active && before[id].account == account;
      assert (set i | 0 <= i < |before| && before[i].status == Active && which(i, before[i])) == if hit then {id} else {};
      assert sessions == RevokeById(old(State()), account, id, now).0.sessions;
      assert count == if hit then 1 else 0;
      revoked := count == 1;
    }

    method RevokeAccount(account: AccountId, now: int)
      modifies `sessions, `accounts
      ensures State() == RevokeAll(old(State()), account, now)
    {
      if account !in accounts {
        return;
      }
      var row := accounts[account];
      accounts := accounts[account := row.(sessionVersion := row.sessionVersion + 1)];
      var count := UpdateMany((i, s: Session) => s.account == account, Revoked, now, AccountWideRevocation);
    }
  }
}
