/** Safety of browser sessions over whole runs, with a clock that never goes back. */
module SessionRuns {
  import opened Wrappers
  import opened Sessions

  datatype State = State(db: Database, clock: int)

  datatype Action =
    | Tick(elapsed: nat)
    | OpenAccount(account: AccountId)
    | SetAccountStatus(account: AccountId, status: AccountStatus)
    | CreateSession(account: AccountId)
    | ValidateToken(token: nat)
    | RotateToken(token: nat, pause: nat)
    | RevokeToken(token: nat)
    | RevokeAccount(account: AccountId)
    | RevokeSession(account: AccountId, session: nat)

  function Init(clock: int): State {
    State(Database(map[], []), clock)
  }

  function Apply(s: State, policy: Policy, a: Action): State {
    match a
    case Tick(elapsed) => s.(clock := s.clock + elapsed)
    case OpenAccount(account) =>
      if account in s.db.accounts then s
      else s.(db := s.db.(accounts := s.db.accounts[account := Account(AccountActive, 1)]))
    case SetAccountStatus(account, status) =>
      if account !in s.db.accounts then s
      else s.(db := s.db.(accounts := s.db.accounts[account := s.db.accounts[account].(status := status)]))
    case CreateSession(account) => s.(db := Create(s.db, policy, account, s.clock).0)
    case ValidateToken(token) => s.(db := Validate(s.db, policy, token, s.clock).0)
    case RotateToken(token, pause) =>
      State(Rotate(s.db, policy, token, s.clock, s.clock + pause).0, s.clock + pause)
    case RevokeToken(token) => s.(db := Revoke(s.db, token, s.clock).0)
    case RevokeAccount(account) => s.(db := RevokeAll(s.db, account, s.clock))
    case RevokeSession(account, session) => s.(db := RevokeById(s.db, account, session, s.clock).0)
  }

  function Run(s: State, policy: Policy, actions: seq<Action>): State
    decreases |actions|
  {
    if |actions| == 0 then s else Run(Apply(s, policy, actions[0]), policy, actions[1..])
  }

  // ---------------------------------------------------------------- invariant

  /** A row agrees with its family's first row and with its parent. */
  predicate Rooted(t: seq<Session>, policy: Policy, i: nat)
    requires i < |t|
  {
    && t[i].family <= i
    && t[t[i].family].family == t[i].family
    && t[t[i].family].account == t[i].account
    && t[i].absoluteExpiresAt == t[t[i].family].createdAt + policy.absolute
    && (t[i].parent.None? ==> t[i].family == i)
    && (t[i].parent.Some? ==>
          && t[i].parent.value < i
          && t[t[i].parent.value].family == t[i].family
          && t[t[i].parent.value].status == Rotated)
  }

  /** Exactly the rotated rows have a child, and only one. */
  ghost predicate OneChild(t: seq<Session>) {
    && (forall i, j :: 0 <= i < |t| && 0 <= j < |t| && t[i].parent.Some? && t[i].parent == t[j].parent ==> i == j)
    && (forall i :: 0 <= i < |t| && t[i].status == Rotated ==> exists j :: 0 <= j < |t| && t[j].parent == Some(i))
  }

  predicate Timely(db: Database, policy: Policy, clock: int, i: nat)
    requires i < |db.sessions|
  {
    var s := db.sessions[i];
    && s.createdAt <= s.lastSeenAt <= clock
    && s.account in db.accounts
    && s.version <= db.accounts[s.account].sessionVersion
    && (s.status == Active ==>
          && s.version == db.accounts[s.account].sessionVersion
          && s.idleExpiresAt == Min(s.lastSeenAt + policy.idle, s.absoluteExpiresAt))
  }

  ghost predicate AllRooted(t: seq<Session>, policy: Policy) {
    forall i :: 0 <= i < |t| ==> Rooted(t, policy, i)
  }

  ghost predicate AllTimely(s: State, policy: Policy) {
    forall i :: 0 <= i < |s.db.sessions| ==> Timely(s.db, policy, s.clock, i)
  }

  ghost predicate Inv(s: State, policy: Policy) {
    AllRooted(s.db.sessions, policy) && OneChild(s.db.sessions) && AllTimely(s, policy)
  }

  /** `t` keeps every row of `s` except for ending active ones. */
  ghost predicate OnlyEnds(s: seq<Session>, t: seq<Session>) {
    && |s| == |t|
    && forall i :: 0 <= i < |s| ==>
         t[i] == s[i] || (s[i].status == Active && (t[i].status == Revoked || t[i].status == Expired)
                          && t[i] == s[i].(status := t[i].status, revocation := t[i].revocation))
  }

  lemma EndsKeepTable(s: seq<Session>, t: seq<Session>, policy: Policy)
    requires AllRooted(s, policy) && OneChild(s) && OnlyEnds(s, t)
    ensures AllRooted(t, policy) && OneChild(t)
  {
    forall i | 0 <= i < |t|
      ensures Rooted(t, policy, i)
    {
      assert Rooted(s, policy, i);
    }
    forall i | 0 <= i < |t| && t[i].status == Rotated
      ensures exists j :: 0 <= j < |t| && t[j].parent == Some(i)
    {
      var j :| 0 <= j < |s| && s[j].parent == Some(i);
      assert t[j].parent == Some(i);
    }
  }

  lemma EndsKeepTimes(s: State, t: State, policy: Policy)
    requires AllTimely(s, policy) && OnlyEnds(s.db.sessions, t.db.sessions)
    requires s.clock <= t.clock && t.db.accounts == s.db.accounts
    ensures AllTimely(t, policy)
  {
    forall i | 0 <= i < |t.db.sessions|
      ensures Timely(t.db, policy, t.clock, i)
    {
      assert Timely(s.db, policy, s.clock, i);
    }
  }

  lemma RevokeAllKeepsTimes(s: State, policy: Policy, account: AccountId)
    requires AllTimely(s, policy)
    ensures AllTimely(Apply(s, policy, RevokeAccount(account)), policy)
  {
    var t := Apply(s, policy, RevokeAccount(account));
    forall i | 0 <= i < |t.db.sessions|
      ensures Timely(t.db, policy, t.clock, i)
    {
      assert Timely(s.db, policy, s.clock, i);
    }
  }

  lemma CreateKeeps(s: State, policy: Policy, account: AccountId)
    requires Inv(s, policy)
    ensures Inv(Apply(s, policy, CreateSession(account)), policy)
  {
    var t := Apply(s, policy, CreateSession(account));
    forall i | 0 <= i < |t.db.sessions|
      ensures Rooted(t.db.sessions, policy, i) && Timely(t.db, policy, t.clock, i)
    {
      if i < |s.db.sessions| {
        assert Rooted(s.db.sessions, policy, i) && Timely(s.db, policy, s.clock, i);
      }
    }
    forall i | 0 <= i < |t.db.sessions| && t.db.sessions[i].status == Rotated
      ensures exists j :: 0 <= j < |t.db.sessions| && t.db.sessions[j].parent == Some(i)
    {
      var j :| 0 <= j < |s.db.sessions| && s.db.sessions[j].parent == Some(i);
      assert t.db.sessions[j].parent == Some(i);
    }
  }

  lemma TouchKeeps(s: State, policy: Policy, token: nat)
    requires Inv(s, policy) && Usable(s.db, token, s.clock)
    ensures Inv(Apply(s, policy, ValidateToken(token)), policy)
  {
    var t := Apply(s, policy, ValidateToken(token));
    assert forall i :: 0 <= i < |s.db.sessions| ==> t.db.sessions[i].parent == s.db.sessions[i].parent;
    forall i | 0 <= i < |t.db.sessions|
      ensures Rooted(t.db.sessions, policy, i) && Timely(t.db, policy, t.clock, i)
    {
      assert Rooted(s.db.sessions, policy, i) && Timely(s.db, policy, s.clock, i);
    }
    forall i | 0 <= i < |t.db.sessions| && t.db.sessions[i].status == Rotated
      ensures exists j :: 0 <= j < |t.db.sessions| && t.db.sessions[j].parent == Some(i)
    {
      var j :| 0 <= j < |s.db.sessions| && s.db.sessions[j].parent == Some(i);
      assert t.db.sessions[j].parent == Some(i);
    }
  }

  /** A child replaces the active session `token` at the end of the table. */
  predicate AddsChild(u: seq<Session>, t: seq<Session>, token: nat, row: Session) {
    && token < |u| && u[token].status == Active
    && t == u[token := u[token].(status := Rotated)] + [row]
    && row.parent == Some(token) && row.status == Active
    && row.family == u[token].family && row.account == u[token].account
    && row.absoluteExpiresAt == u[token].absoluteExpiresAt
  }

  lemma ChildKeepsRoots(u: seq<Session>, t: seq<Session>, policy: Policy, token: nat, row: Session)
    requires AllRooted(u, policy) && AddsChild(u, t, token, row)
    ensures AllRooted(t, policy)
  {
    assert Rooted(u, policy, token);
    forall i | 0 <= i < |t|
      ensures Rooted(t, policy, i)
    {
      if i < |u| {
        assert Rooted(u, policy, i);
      }
    }
  }

  lemma ChildIsOnly(u: seq<Session>, t: seq<Session>, policy: Policy, token: nat, row: Session)
    requires AllRooted(u, policy) && OneChild(u) && AddsChild(u, t, token, row)
    ensures OneChild(t)
  {
    assert forall i :: 0 <= i < |u| ==> t[i].parent == u[i].parent;
    assert t[|u|].parent == Some(token);
    forall i | 0 <= i < |u|
      ensures u[i].parent != Some(token)
    {
      assert Rooted(u, policy, i);
    }
    forall i | 0 <= i < |t| && t[i].status == Rotated
      ensures exists j :: 0 <= j < |t| && t[j].parent == Some(i)
    {
      if i != token {
        var j :| 0 <= j < |u| && u[j].parent == Some(i);
        assert t[j].parent == Some(i);
      }
    }
  }

  lemma RotateKeepsTable(s: State, policy: Policy, token: nat, pause: nat)
    requires Inv(s, policy)
    requires Rotate(s.db, policy, token, s.clock, s.clock + pause).1.Granted?
    ensures var t := Apply(s, policy, RotateToken(token, pause)).db.sessions;
            AllRooted(t, policy) && OneChild(t)
  {
    var u := s.db.sessions;
    var t := Apply(s, policy, RotateToken(token, pause)).db.sessions;
    var row := t[|u|];
    assert AddsChild(u, t, token, row);
    ChildKeepsRoots(u, t, policy, token, row);
    ChildIsOnly(u, t, policy, token, row);
  }

  lemma RotateKeepsTimes(s: State, policy: Policy, token: nat, pause: nat)
    requires Inv(s, policy)
    requires Rotate(s.db, policy, token, s.clock, s.clock + pause).1.Granted?
    ensures AllTimely(Apply(s, policy, RotateToken(token, pause)), policy)
  {
    var t := Apply(s, policy, RotateToken(token, pause));
    forall i | 0 <= i < |t.db.sessions|
      ensures Timely(t.db, policy, t.clock, i)
    {
      if i < |s.db.sessions| {
        assert Timely(s.db, policy, s.clock, i);
      } else {
        assert Timely(s.db, policy, s.clock, token);
      }
    }
  }

  /** Which steps only end sessions. */
  predicate Ending(s: State, policy: Policy, a: Action) {
    match a
    case ValidateToken(token) => !Usable(s.db, token, s.clock)
    case RotateToken(token, pause) => !Rotate(s.db, policy, token, s.clock, s.clock + pause).1.Granted?
    case RevokeToken(_) => true
    case RevokeSession(_, _) => true
    case RevokeAccount(_) => true
    case _ => false
  }

  lemma EndingOnlyEnds(s: State, policy: Policy, a: Action)
    requires Ending(s, policy, a)
    ensures OnlyEnds(s.db.sessions, Apply(s, policy, a).db.sessions)
    ensures !a.RevokeAccount? ==> Apply(s, policy, a).db.accounts == s.db.accounts
  {
  }

  lemma InvStep(s: State, policy: Policy, a: Action)
    requires Inv(s, policy)
    ensures Inv(Apply(s, policy, a), policy)
  {
    var t := Apply(s, policy, a);
    if Ending(s, policy, a) {
      EndingOnlyEnds(s, policy, a);
      EndsKeepTable(s.db.sessions, t.db.sessions, policy);
      if a.RevokeAccount? {
        RevokeAllKeepsTimes(s, policy, a.account);
      } else {
        EndsKeepTimes(s, t, policy);
      }
    } else {
      match a {
        case CreateSession(account) => CreateKeeps(s, policy, account);
        case ValidateToken(token) => TouchKeeps(s, policy, token);
        case RotateToken(token, pause) =>
          RotateKeepsTable(s, policy, token, pause);
          RotateKeepsTimes(s, policy, token, pause);
        case Tick(_) => SurroundingsKeep(s, policy, a);
        case OpenAccount(_) => SurroundingsKeep(s, policy, a);
        case SetAccountStatus(_, _) => SurroundingsKeep(s, policy, a);
        case _ =>
      }
    }
  }

  lemma SurroundingsKeep(s: State, policy: Policy, a: Action)
    requires Inv(s, policy) && (a.Tick? || a.OpenAccount? || a.SetAccountStatus?)
    ensures Inv(Apply(s, policy, a), policy)
  {
    var t := Apply(s, policy, a);
    forall i | 0 <= i < |t.db.sessions|
      ensures Timely(t.db, policy, t.clock, i)
    {
      assert Timely(s.db, policy, s.clock, i);
    }
  }

  lemma {:induction false} InvRun(s: State, policy: Policy, actions: seq<Action>)
    requires Inv(s, policy)
    ensures Inv(Run(s, policy, actions), policy)
    decreases |actions|
  {
    if |actions| > 0 {
      InvStep(s, policy, actions[0]);
      InvRun(Apply(s, policy, actions[0]), policy, actions[1..]);
    }
  }

  ghost predicate Reachable(s: State, policy: Policy) {
    exists clock: int, actions: seq<Action> :: Run(Init(clock), policy, actions) == s
  }

  lemma ReachableInv(s: State, policy: Policy)
    requires Reachable(s, policy)
    ensures Inv(s, policy)
  {
    var clock: int, actions: seq<Action> :| Run(Init(clock), policy, actions) == s;
    InvRun(Init(clock), policy, actions);
  }

  // ---------------------------------------------------------------- families are chains

  /** `a` is `b` or one of the rows `b` was rotated from. */
  predicate IsAncestor(t: seq<Session>, a: nat, b: nat)
    requires b < |t|
    decreases b
  {
    a == b || (t[b].parent.Some? && t[b].parent.value < b && IsAncestor(t, a, t[b].parent.value))
  }

  /** The next row on the way from an ancestor. */
  lemma {:induction false} ChildTowards(t: seq<Session>, a: nat, b: nat) returns (c: nat)
    requires b < |t| && a != b && IsAncestor(t, a, b)
    ensures c <= b && t[c].parent == Some(a)
    decreases b
  {
    if t[b].parent == Some(a) {
      c := b;
    } else {
      c := ChildTowards(t, a, t[b].parent.value);
    }
  }

  lemma {:induction false} FamilyIsLinear(t: seq<Session>, policy: Policy, a: nat, b: nat)
    requires AllRooted(t, policy) && OneChild(t)
    requires a <= b < |t| && t[a].family == t[b].family
    ensures IsAncestor(t, a, b)
    decreases b
  {
    if a < b {
      assert Rooted(t, policy, a) && Rooted(t, policy, b);
      var p := t[b].parent.value;
      if p < a {
        FamilyIsLinear(t, policy, p, a);
        var c := ChildTowards(t, p, a);
      } else {
        FamilyIsLinear(t, policy, a, p);
      }
    }
  }

  /** In every reachable state a family is one chain: of two members the older is an ancestor of the younger. */
  lemma FamiliesAreChains(s: State, policy: Policy, a: nat, b: nat)
    requires Reachable(s, policy)
    requires a <= b < |s.db.sessions| && s.db.sessions[a].family == s.db.sessions[b].family
    ensures IsAncestor(s.db.sessions, a, b)
  {
    ReachableInv(s, policy);
    FamilyIsLinear(s.db.sessions, policy, a, b);
  }

  /**
   A session has been rotated exactly when its family has a younger member; hence every
   member but the youngest is rotated, and at most the youngest is active.
   */
  lemma RotatedIffSuperseded(s: State, policy: Policy, a: nat)
    requires Reachable(s, policy) && a < |s.db.sessions|
    ensures s.db.sessions[a].status == Rotated <==>
              exists b :: a < b < |s.db.sessions| && s.db.sessions[b].family == s.db.sessions[a].family
  {
    ReachableInv(s, policy);
    var t := s.db.sessions;
    if t[a].status == Rotated {
      var j :| 0 <= j < |t| && t[j].parent == Some(a);
      assert Rooted(t, policy, j);
    }
    if b :| a < b < |t| && t[b].family == t[a].family {
      FamilyIsLinear(t, policy, a, b);
      var c := ChildTowards(t, a, b);
      assert Rooted(t, policy, c);
    }
  }

  // ---------------------------------------------------------------- expiry

  /**
   No token is accepted once its family's first session is older than the absolute
   lifetime, however often it was rotated, nor when unseen for the idle lifetime.
   */
  lemma LifetimesBind(s: State, policy: Policy, token: nat, now: int)
    requires Reachable(s, policy) && token < |s.db.sessions|
    ensures s.db.sessions[token].family <= token
    ensures var root := s.db.sessions[s.db.sessions[token].family];
            (now >= root.createdAt + policy.absolute || now >= s.db.sessions[token].lastSeenAt + policy.idle) ==>
              Validate(s.db, policy, token, now).1.None?
              && Rotate(s.db, policy, token, now, now).1.Refused?
  {
    ReachableInv(s, policy);
    assert Rooted(s.db.sessions, policy, token) && Timely(s.db, policy, s.clock, token);
  }

  /** The deadlines of an active session are the ones its lifetimes give, never the stored past. */
  lemma ActiveDeadlines(s: State, policy: Policy, i: nat)
    requires Reachable(s, policy) && i < |s.db.sessions| && s.db.sessions[i].status == Active
    ensures var row := s.db.sessions[i];
            && row.family <= i
            && row.absoluteExpiresAt == s.db.sessions[row.family].createdAt + policy.absolute
            && row.idleExpiresAt == Min(row.lastSeenAt + policy.idle, row.absoluteExpiresAt)
            && row.account in s.db.accounts
            && row.version == s.db.accounts[row.account].sessionVersion
  {
    ReachableInv(s, policy);
    assert Rooted(s.db.sessions, policy, i) && Timely(s.db, policy, s.clock, i);
  }

  // ---------------------------------------------------------------- revocation is final

  /** Rows are never removed, and a row that is not active never changes status again. */
  ghost predicate Settled(s: State, t: State) {
    && |s.db.sessions| <= |t.db.sessions|
    && forall i :: 0 <= i < |s.db.sessions| ==>
         && t.db.sessions[i].account == s.db.sessions[i].account
         && t.db.sessions[i].family == s.db.sessions[i].family
         && (s.db.sessions[i].status != Active ==> t.db.sessions[i].status == s.db.sessions[i].status)
  }

  lemma SettledStep(s: State, policy: Policy, a: Action)
    ensures Settled(s, Apply(s, policy, a))
  {
    if Ending(s, policy, a) {
      EndingOnlyEnds(s, policy, a);
    }
  }

  lemma {:induction false} SettledRun(s: State, policy: Policy, actions: seq<Action>)
    ensures Settled(s, Run(s, policy, actions))
    decreases |actions|
  {
    if |actions| > 0 {
      SettledStep(s, policy, actions[0]);
      SettledRun(Apply(s, policy, actions[0]), policy, actions[1..]);
    }
  }

  ghost predicate FamilyDead(s: State, family: nat) {
    && family < |s.db.sessions|
    && forall i :: 0 <= i < |s.db.sessions| && s.db.sessions[i].family == family ==> s.db.sessions[i].status != Active
  }

  lemma DeadStep(s: State, policy: Policy, a: Action, family: nat)
    requires FamilyDead(s, family)
    ensures FamilyDead(Apply(s, policy, a), family)
  {
    if Ending(s, policy, a) {
      EndingOnlyEnds(s, policy, a);
    }
  }

  lemma {:induction false} DeadRun(s: State, policy: Policy, actions: seq<Action>, family: nat)
    requires FamilyDead(s, family)
    ensures FamilyDead(Run(s, policy, actions), family)
    decreases |actions|
  {
    if |actions| > 0 {
      DeadStep(s, policy, actions[0], family);
      DeadRun(Apply(s, policy, actions[0]), policy, actions[1..], family);
    }
  }

  /**
   Presenting a token that was already rotated kills its whole family for good: in every
   later state no member is active and no member's token is accepted.
   */
  lemma ReuseKillsFamily(s: State, policy: Policy, token: nat, later: seq<Action>, member: nat, now: int)
    requires Reachable(s, policy)
    requires token < |s.db.sessions| && s.db.sessions[token].status == Rotated
    ensures var t := Run(Apply(s, policy, ValidateToken(token)), policy, later);
            member < |t.db.sessions| && t.db.sessions[member].family == s.db.sessions[token].family ==>
              && t.db.sessions[member].status != Active
              && Validate(t.db, policy, member, now).1.None?
  {
    ReachableInv(s, policy);
    assert Rooted(s.db.sessions, policy, token);
    var family := s.db.sessions[token].family;
    assert FamilyDead(Apply(s, policy, ValidateToken(token)), family);
    DeadRun(Apply(s, policy, ValidateToken(token)), policy, later, family);
  }

  /** After an account-wide revocation, no token granted before it is ever accepted again. */
  lemma AccountRevocationIsFinal(
      s: State, policy: Policy, account: AccountId, later: seq<Action>, token: nat, now: int)
    requires token < |s.db.sessions| && s.db.sessions[token].account == account
    requires account in s.db.accounts
    ensures var t := Run(Apply(s, policy, RevokeAccount(account)), policy, later);
            Validate(t.db, policy, token, now).1.None? && Rotate(t.db, policy, token, now, now).1.Refused?
  {
    SettledRun(Apply(s, policy, RevokeAccount(account)), policy, later);
  }

  // ---------------------------------------------------------------- agreement of the checks

  /**
   A token is accepted exactly when the command-side check accepts its actor, and the
   acceptance leaves that check true at the same instant.
   */
  lemma AcceptedTokensAreActive(s: State, policy: Policy, token: nat)
    requires Reachable(s, policy)
    ensures var (after, actor) := Validate(s.db, policy, token, s.clock);
            && (actor.Some? <==> token < |s.db.sessions|
                                 && IsSessionActive(s.db, ActorOf(s.db.sessions[token], token), s.clock))
            && (actor.Some? ==> IsSessionActive(after, actor.value, s.clock))
  {
    ReachableInv(s, policy);
  }

  /** For an active account, the listed sessions are exactly those whose token would be accepted. */
  lemma ListedSessionsAreUsable(s: State, policy: Policy, account: AccountId, token: nat)
    requires Reachable(s, policy)
    requires account in s.db.accounts && s.db.accounts[account].status == AccountActive
    ensures token in ListActive(s.db, account, s.clock) <==>
              token < |s.db.sessions| && s.db.sessions[token].account == account
              && Validate(s.db, policy, token, s.clock).1.Some?
  {
    ReachableInv(s, policy);
    if token < |s.db.sessions| {
      assert Timely(s.db, policy, s.clock, token);
    }
  }

  /**
   Rotation hands the session over: the new token is accepted at once, for the same actor
   and with the same absolute deadline, and the old one no longer is. It is rolled back
   exactly when the absolute deadline passes between its two readings of the clock.
   */
  lemma RotationHandsOver(s: State, policy: Policy, token: nat, pause: nat)
    requires Reachable(s, policy)
    requires Usable(s.db, token, s.clock)
    ensures var insertedAt := s.clock + pause;
            var (after, outcome) := Rotate(s.db, policy, token, s.clock, insertedAt);
            var stored := s.db.sessions[token];
            && (outcome.RolledBack? <==> stored.absoluteExpiresAt <= insertedAt)
            && (outcome.RolledBack? ==> after == s.db)
            && (outcome.Granted? ==>
                  && Validate(after, policy, outcome.session, insertedAt).1
                     == Some(Actor(stored.account, stored.assurance, outcome.session))
                  && after.sessions[outcome.session].absoluteExpiresAt == stored.absoluteExpiresAt
                  && Validate(after, policy, token, insertedAt).1.None?)
  {
    ReachableInv(s, policy);
    assert Timely(s.db, policy, s.clock, token);
  }
}
