/**
 What every session call answers and changes, read off the rows: who is granted a session, which
 tokens are accepted, what ends when one is not, and that whatever a logout or a revocation ends
 stays ended while every other session goes on as before.
 */
module SessionAnswers {
  import opened Wrappers
  import opened Sessions
  import opened SessionRuns

  /** Lifetimes of 5 minutes to a day idle, and of up to 30 days in all; half an hour and half a day by default. */
  lemma PolicyIff(idle: Option<int>, absolute: Option<int>)
    ensures var i := if idle.Some? then idle.value else 1_800_000;
            var a := if absolute.Some? then absolute.value else 43_200_000;
            && (MakePolicy(idle, absolute).Some? <==> 300_000 <= i <= 86_400_000 && i <= a <= 2_592_000_000)
            && (MakePolicy(idle, absolute).Some? ==> MakePolicy(idle, absolute).value == Lifetimes(i, a))
  {
  }

  predicate AccountIsActive(db: Database, account: AccountId) {
    account in db.accounts && db.accounts[account].status == AccountActive
  }

  /** The row is active, within both deadlines, of an active account that has not revoked it. */
  predicate InForce(db: Database, token: nat, now: int) {
    && token < |db.sessions|
    && var row := db.sessions[token];
       && row.status == Active && now < row.idleExpiresAt && now < row.absoluteExpiresAt
       && AccountIsActive(db, row.account) && row.version == db.accounts[row.account].sessionVersion
  }

  function Earlier(a: int, b: int): int {
    if a <= b then a else b
  }

  /** The row `i` is as before. */
  predicate Kept(before: Database, after: Database, i: nat)
    requires i < |before.sessions| <= |after.sessions|
  {
    after.sessions[i] == before.sessions[i]
  }

  /** The row `i` has ended now, for this reason, and is otherwise as before. */
  predicate Ended(before: Database, after: Database, i: nat, status: Status, now: int, reason: Reason)
    requires i < |before.sessions| <= |after.sessions|
  {
    after.sessions[i] == before.sessions[i].(status := status, revocation := Some(Revocation(now, reason)))
  }

  // ---------------------------------------------------------------- runs

  lemma {:induction false} OneMore(s: State, policy: Policy, actions: seq<Action>, a: Action)
    ensures Run(s, policy, actions + [a]) == Apply(Run(s, policy, actions), policy, a)
    decreases |actions|
  {
    if |actions| > 0 {
      OneMore(Apply(s, policy, actions[0]), policy, actions[1..], a);
      assert (actions + [a])[1..] == actions[1..] + [a];
    } else {
      assert [a][1..] == [];
    }
  }

  /**
   A run goes on by one call at a time, each at the clock it finds; only a rotation takes time
   itself. Accounts are opened active, at version one, and keep their version when their status
   is set.
   */
  lemma RunsAreCalls(s: State, policy: Policy, actions: seq<Action>, a: Action)
    ensures Run(s, policy, []) == s
    ensures var (now, next) := (Run(s, policy, actions), Run(s, policy, actions + [a]));
            && next.clock == now.clock + (if a.Tick? then a.elapsed else if a.RotateToken? then a.pause else 0)
            && (a.Tick? ==> next.db == now.db)
            && (a.OpenAccount? ==>
                  && next.db.sessions == now.db.sessions && a.account in next.db.accounts
                  && next.db.accounts == now.db.accounts[a.account := next.db.accounts[a.account]]
                  && next.db.accounts[a.account]
                     == if a.account in now.db.accounts then now.db.accounts[a.account] else Account(AccountActive, 1))
            && (a.SetAccountStatus? && a.account in now.db.accounts ==>
                  && next.db.sessions == now.db.sessions
                  && next.db.accounts
                     == now.db.accounts[a.account := Account(a.status, now.db.accounts[a.account].sessionVersion)])
            && (a.CreateSession? ==> next.db == Create(now.db, policy, a.account, now.clock).0)
            && (a.ValidateToken? ==> next.db == Validate(now.db, policy, a.token, now.clock).0)
            && (a.RotateToken? ==> next.db == Rotate(now.db, policy, a.token, now.clock, now.clock + a.pause).0)
            && (a.RevokeToken? ==> next.db == Revoke(now.db, a.token, now.clock).0)
            && (a.RevokeAccount? ==> next.db == RevokeAll(now.db, a.account, now.clock))
            && (a.RevokeSession? ==> next.db == RevokeById(now.db, a.account, a.session, now.clock).0)
  {
    OneMore(s, policy, actions, a);
    var now := Run(s, policy, actions);
    if a.OpenAccount? && a.account in now.db.accounts {
      assert now.db.accounts[a.account := now.db.accounts[a.account]] == now.db.accounts;
    }
  }

  // ---------------------------------------------------------------- creation

  /**
   Exactly an active account is granted a session. It starts a family of its own, at the lowest
   assurance, with both deadlines counted from now, its token is accepted at once, and no other
   row changes.
   */
  lemma CreationIsExact(db: Database, policy: Policy, account: AccountId, now: int)
    ensures var (after, granted) := Create(db, policy, account, now);
            && (granted.Some? <==> AccountIsActive(db, account))
            && (granted.None? ==> after == db)
            && (granted.Some? ==>
                  && granted.value == |db.sessions| && |after.sessions| == |db.sessions| + 1
                  && after.accounts == db.accounts && db.sessions <= after.sessions
                  && after.sessions[granted.value]
                     == Session(account, granted.value, None, db.accounts[account].sessionVersion, Base, Active, now, now,
                                now + Earlier(policy.idle, policy.absolute), now + policy.absolute, None)
                  && Validate(after, policy, granted.value, now).1 == Some(Actor(account, Base, granted.value)))
  {
  }

  // ---------------------------------------------------------------- validation

  /**
   Exactly a token whose session is in force is accepted, as its account's actor; only that row
   changes, and is seen now and idle until the idle lifetime or the absolute deadline. A rotated
   token ends every active session of its family and no other. Any other stored token ends at
   most its own session, as expired if a deadline has passed and as revoked if not. An unknown
   token changes nothing.
   */
  lemma ValidationIsExact(db: Database, policy: Policy, token: nat, now: int, i: nat)
    requires i < |db.sessions|
    ensures var (after, actor) := Validate(db, policy, token, now);
            && |after.sessions| == |db.sessions| && after.accounts == db.accounts
            && (actor.Some? <==> InForce(db, token, now))
            && (token >= |db.sessions| ==> after == db)
            && (actor.Some? ==>
                  var row := db.sessions[token];
                  && actor.value == Actor(row.account, row.assurance, token)
                  && (i != token ==> Kept(db, after, i))
                  && after.sessions[token]
                     == row.(lastSeenAt := now, idleExpiresAt := Earlier(now + policy.idle, row.absoluteExpiresAt)))
            && (actor.None? && token < |db.sessions| ==>
                  var row := db.sessions[token];
                  if row.status == Rotated then
                    if db.sessions[i].status == Active && db.sessions[i].family == row.family
                    then Ended(db, after, i, Revoked, now, RotatedTokenReuse) else Kept(db, after, i)
                  else if i != token || row.status != Active then Kept(db, after, i)
                  else if now >= row.idleExpiresAt || now >= row.absoluteExpiresAt
                  then Ended(db, after, i, Expired, now, SessionExpired)
                  else Ended(db, after, i, Revoked, now, AccountStateChanged))
  {
  }

  /**
   Exactly the token of a session in force is rotated, unless the absolute deadline passes before
   the new row is inserted: the old row is then rotated and otherwise as before, the new one
   takes over its account, family, version, assurance and absolute deadline, and no other row
   changes. In every other case nothing does.
   */
  lemma RotationIsExact(s: State, policy: Policy, token: nat, pause: nat)
    requires Reachable(s, policy)
    ensures var insertedAt := s.clock + pause;
            var (after, outcome) := Rotate(s.db, policy, token, s.clock, insertedAt);
            && (outcome.Refused? <==> !InForce(s.db, token, s.clock))
            && (outcome.Granted? <==>
                  InForce(s.db, token, s.clock) && insertedAt < s.db.sessions[token].absoluteExpiresAt)
            && (!outcome.Granted? ==> after == s.db)
            && (outcome.Granted? ==>
                  var row := s.db.sessions[token];
                  && outcome.session == |s.db.sessions| && after.accounts == s.db.accounts
                  && after.sessions == s.db.sessions[token := row.(status := Rotated)]
                       + [Session(row.account, row.family, Some(token), row.version, row.assurance, Active,
                                  insertedAt, insertedAt, Earlier(insertedAt + policy.idle, row.absoluteExpiresAt),
                                  row.absoluteExpiresAt, None)])
  {
    ReachableInv(s, policy);
  }

  // ---------------------------------------------------------------- what has ended stays ended

  /** The token is never accepted or rotated, whatever the clock says, and its actor is never let through. */
  predicate Shut(db: Database, policy: Policy, token: nat, actor: Actor, now: int) {
    && Validate(db, policy, token, now).1.None?
    && Rotate(db, policy, token, now, now).1.Refused?
    && !IsSessionActive(db, actor, now)
  }

  lemma EndedStaysShut(s: State, policy: Policy, more: seq<Action>, token: nat, actor: Actor, now: int)
    requires token < |s.db.sessions| && s.db.sessions[token].status != Active && actor.session == token
    ensures Shut(Run(s, policy, more).db, policy, token, actor, now)
  {
    SettledRun(s, policy, more);
  }

  /**
   A logout says exactly whether its session was active. If so that row is revoked now, by its
   user. Either way the token is never accepted or rotated again, in any later run, nor its actor
   let through; and every other session is as before, so its token is accepted exactly if it was.
   */
  lemma LogoutEnds(s: State, policy: Policy, token: nat, more: seq<Action>, actor: Actor, now: int, other: nat)
    requires token < |s.db.sessions| && actor.session == token && other < |s.db.sessions|
    ensures var (after, ended) := Revoke(s.db, token, s.clock);
            var t := Apply(s, policy, RevokeToken(token));
            && t.db == after && after.accounts == s.db.accounts && |after.sessions| == |s.db.sessions|
            && (ended <==> s.db.sessions[token].status == Active)
            && (ended ==> Ended(s.db, after, token, Revoked, s.clock, UserLogout))
            && (!ended ==> after.sessions == s.db.sessions)
            && Shut(Run(t, policy, more).db, policy, token, actor, now)
            && (other != token ==>
                  && Kept(s.db, after, other)
                  && Validate(after, policy, other, now).1 == Validate(s.db, policy, other, now).1)
  {
    var t := Apply(s, policy, RevokeToken(token));
    EndedStaysShut(t, policy, more, token, actor, now);
    if !Revoke(s.db, token, s.clock).1 {
      assert t.db.sessions == s.db.sessions;
    }
  }

  /** A logout with a token nobody has changes nothing, and says so. */
  lemma UnknownLogout(db: Database, token: nat, now: int)
    requires token >= |db.sessions|
    ensures Revoke(db, token, now) == (db, false)
  {
    assert Revoke(db, token, now).0.sessions == db.sessions;
  }

  /**
   An owner's revocation says exactly whether the session is active and theirs. If so that row is
   revoked now, and never accepted, rotated or let through again. Every other session, and the
   session itself if it is another account's, is as before.
   */
  lemma OwnerRevocationEnds(
      s: State, policy: Policy, account: AccountId, id: nat, more: seq<Action>, actor: Actor, now: int, other: nat)
    requires id < |s.db.sessions| && actor.session == id && other < |s.db.sessions|
    ensures var (after, ended) := RevokeById(s.db, account, id, s.clock);
            var t := Apply(s, policy, RevokeSession(account, id));
            && t.db == after && after.accounts == s.db.accounts && |after.sessions| == |s.db.sessions|
            && (ended <==> s.db.sessions[id].status == Active && s.db.sessions[id].account == account)
            && (ended ==> Ended(s.db, after, id, Revoked, s.clock, UserSessionRevocation))
            && (s.db.sessions[id].account == account ==> Shut(Run(t, policy, more).db, policy, id, actor, now))
            && (other != id || !ended ==>
                  && Kept(s.db, after, other)
                  && Validate(after, policy, other, now).1 == Validate(s.db, policy, other, now).1)
  {
    var t := Apply(s, policy, RevokeSession(account, id));
    if s.db.sessions[id].account == account {
      EndedStaysShut(t, policy, more, id, actor, now);
    }
    if !RevokeById(s.db, account, id, s.clock).1 {
      assert t.db.sessions == s.db.sessions;
    }
  }

  /**
   An account-wide revocation ends exactly the account's active sessions and takes its version one
   on, so that sessions granted before never count again; every other account and session is as
   before.
   */
  lemma AccountRevocationEnds(s: State, policy: Policy, account: AccountId, i: nat, now: int)
    requires account in s.db.accounts && i < |s.db.sessions|
    ensures var after := RevokeAll(s.db, account, s.clock);
            && Apply(s, policy, RevokeAccount(account)).db == after && |after.sessions| == |s.db.sessions|
            && after.accounts
               == s.db.accounts[account := Account(s.db.accounts[account].status, s.db.accounts[account].sessionVersion + 1)]
            && (s.db.sessions[i].account == account && s.db.sessions[i].status == Active ==>
                  Ended(s.db, after, i, Revoked, s.clock, AccountWideRevocation))
            && (s.db.sessions[i].account != account || s.db.sessions[i].status != Active ==> Kept(s.db, after, i))
            && (s.db.sessions[i].account != account ==>
                  Validate(after, policy, i, now).1 == Validate(s.db, policy, i, now).1)
  {
  }

  /** The command-side check lets exactly the actor of a session in force through, with that session's own claims. */
  lemma CommandCheckIff(db: Database, actor: Actor, now: int)
    ensures IsSessionActive(db, actor, now) <==>
              && InForce(db, actor.session, now)
              && actor == Actor(db.sessions[actor.session].account, db.sessions[actor.session].assurance, actor.session)
  {
  }

  /** An account sees exactly its sessions that are active and within both deadlines. */
  lemma ListingIff(db: Database, account: AccountId, now: int, i: nat)
    ensures i in ListActive(db, account, now) <==>
              && i < |db.sessions| && db.sessions[i].account == account && db.sessions[i].status == Active
              && now < db.sessions[i].idleExpiresAt && now < db.sessions[i].absoluteExpiresAt
  {
  }
}
