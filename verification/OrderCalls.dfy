/**
 Calls and their attempts. Over every interleaving a call makes at most three attempts and
 places at most one order; one of its attempts gives the answer, which is the answer of the
 use case run alone at the instant of that attempt's commit or of its reads unless the lock
 or a guard refused it, and every other step of the call leaves the tables alone.
 */
module OrderCalls {
  import opened Wrappers
  import opened OrderSubmission
  import opened OrderRuns
  import opened OrderInvariants
  import opened OrderTheorems

  /** The step is one of this call's. */
  predicate OfCall(a: Action, tx: nat) {
    !a.Tick? && !a.CreateDraft? && !a.SetSellers? && a.tx == tx
  }

  predicate Over(s: State, tx: nat) {
    tx in s.txs && (s.txs[tx].Answered? || s.txs[tx].Closed?)
  }

  // ---------------------------------------------------------------- one order per call

  /** The order's call is over, and was answered with the order unless the answer was lost. */
  predicate CallAnswered(s: State, p: Placed) {
    p.call in s.txs
    && (s.txs[p.call] == Answered(p.c, Created(p.request)) || s.txs[p.call] == Answered(p.c, Refused(ConnectionFailed)))
  }

  predicate CreatedIsPlaced(s: State, tx: nat)
    requires tx in s.txs
  {
    var t := s.txs[tx];
    && (t.Answered? && t.outcome.Created? ==> Placed(t.c, t.outcome.request, tx) in s.placed)
    && (t.Leaving? ==> !t.outcome.Created?)
  }

  ghost predicate CallsInv(s: State) {
    && (forall p <- s.placed :: CallAnswered(s, p))
    && (forall i, j :: 0 <= i < j < |s.placed| ==> s.placed[i].call != s.placed[j].call)
    && (forall tx :: tx in s.txs ==> CreatedIsPlaced(s, tx))
  }

  /** What is over stays as it is. */
  lemma OverStays(s: State, a: Action, tx: nat)
    requires Over(s, tx)
    ensures tx in Apply(s, a).txs && Apply(s, a).txs[tx] == s.txs[tx]
  {
  }

  lemma OthersStay(s: State, a: Action, tx: nat)
    requires !OfCall(a, tx)
    ensures tx in Apply(s, a).txs <==> tx in s.txs
    ensures tx in s.txs ==> Apply(s, a).txs[tx] == s.txs[tx]
  {
  }

  /** The step is a commit that goes through. */
  predicate Places(s: State, a: Action) {
    && a.Commit? && a.tx in s.txs && s.txs[a.tx].Ready?
    && var t := s.txs[a.tx];
       Finish(s.db, t.c, t.id, t.prior, t.read, s.clock).Ok?
  }

  function PlacedBy(s: State, a: Action): Placed
    requires Places(s, a)
  {
    var t := s.txs[a.tx];
    Placed(t.c, BuildRequest(t.c, t.id, t.read, s.clock), a.tx)
  }

  lemma PlacesStep(s: State, a: Action)
    requires Places(s, a)
    ensures var p := PlacedBy(s, a);
            && Apply(s, a).placed == s.placed + [p]
            && Apply(s, a).txs
               == s.txs[a.tx := Answered(p.c, if a.heard then Created(p.request) else Refused(ConnectionFailed))]
  {
  }

  lemma OthersPlaceNothing(s: State, a: Action)
    requires !Places(s, a)
    ensures Apply(s, a).placed == s.placed
  {
  }

  lemma LockAnswers(txs: map<nat, Tx>, t: Tx)
    requires t.Begun?
    ensures var next := AfterLock(txs, t);
            || next == Answered(t.c, Refused(KeyInProgress))
            || (HoldsKey(next) && next.attempt == t.attempt)
    ensures AfterLock(txs, t).Leaving? ==>
              AfterLock(txs, t).outcome != Refused(RetriesExhausted) && !AfterLock(txs, t).outcome.Created?
  {
  }

  /** Without a new order no call is newly answered with one, or about to be. */
  lemma NothingCreated(s: State, a: Action, tx: nat)
    requires !Places(s, a) && !Over(s, tx) && tx in Apply(s, a).txs
    requires tx in s.txs ==> CreatedIsPlaced(s, tx)
    ensures CreatedIsPlaced(Apply(s, a), tx)
  {
    if !OfCall(a, tx) {
      OthersStay(s, a, tx);
      OthersPlaceNothing(s, a);
    } else if a.Lock? && s.txs[tx].Begun? {
      LockAnswers(s.txs, s.txs[tx]);
    }
  }

  lemma PlacesKeeps(s: State, after: State, p: Placed, t: Tx)
    requires CallsInv(s) && after.placed == s.placed + [p] && after.txs == s.txs[p.call := t]
    requires t == Answered(p.c, Created(p.request)) || t == Answered(p.c, Refused(ConnectionFailed))
    requires !Over(s, p.call)
    ensures CallsInv(after)
  {
    assert after.placed[|s.placed|] == p;
    forall q | q in after.placed
      ensures CallAnswered(after, q)
    {
      if q in s.placed {
        assert CallAnswered(s, q);
      }
    }
    forall i | 0 <= i < |s.placed|
      ensures s.placed[i].call != p.call
    {
      assert s.placed[i] in s.placed;
      assert CallAnswered(s, s.placed[i]);
    }
    forall tx | tx in after.txs
      ensures CreatedIsPlaced(after, tx)
    {
      if tx != p.call {
        assert CreatedIsPlaced(s, tx);
      }
    }
  }

  lemma QuietKeepsCalls(s: State, a: Action)
    requires CallsInv(s) && !Places(s, a)
    ensures CallsInv(Apply(s, a))
  {
    var after := Apply(s, a);
    OthersPlaceNothing(s, a);
    forall p | p in after.placed
      ensures CallAnswered(after, p)
    {
      assert CallAnswered(s, p);
      OverStays(s, a, p.call);
    }
    forall tx | tx in after.txs
      ensures CreatedIsPlaced(after, tx)
    {
      if Over(s, tx) {
        OverStays(s, a, tx);
        assert CreatedIsPlaced(s, tx);
      } else {
        assert tx in s.txs ==> CreatedIsPlaced(s, tx);
        NothingCreated(s, a, tx);
      }
    }
  }

  lemma CallsStep(s: State, a: Action)
    requires CallsInv(s)
    ensures CallsInv(Apply(s, a))
  {
    if Places(s, a) {
      PlacesStep(s, a);
      PlacesKeeps(s, Apply(s, a), PlacedBy(s, a), Apply(s, a).txs[a.tx]);
    } else {
      QuietKeepsCalls(s, a);
    }
  }

  lemma {:induction false} CallsRun(s: State, actions: seq<Action>)
    requires CallsInv(s)
    ensures CallsInv(Run(s, actions))
    decreases |actions|
  {
    if |actions| > 0 {
      CallsStep(s, actions[0]);
      CallsRun(Apply(s, actions[0]), actions[1..]);
    }
  }

  /**
   Each order belongs to its own call, which was answered with it unless the answer was lost;
   a call answered with a created request placed exactly that; every other call, whatever it
   was answered and however often it tried, placed nothing.
   */
  lemma OneOrderPerCall(clock: int, actions: seq<Action>, tx: nat)
    ensures var s := Run(Init(clock), actions);
            && |s.placed| == |s.db.orders|
            && (forall i, j :: 0 <= i < j < |s.placed| ==> s.placed[i].call != s.placed[j].call)
            && (forall k :: 0 <= k < |s.placed| && s.placed[k].call == tx ==>
                  && CallAnswered(s, s.placed[k])
                  && s.placed[k].request.id == s.db.orders[k].id)
            && (tx in s.txs ==> CreatedIsPlaced(s, tx))
  {
    var s := Run(Init(clock), actions);
    CallsRun(Init(clock), actions);
    InitInv(clock);
    InvRun(Init(clock), actions);
    forall k | 0 <= k < |s.placed|
      ensures CallAnswered(s, s.placed[k]) && s.placed[k].request.id == s.db.orders[k].id
    {
      assert s.placed[k] in s.placed;
      assert PlacedInv(s, k);
    }
  }

  // ---------------------------------------------------------------- the deciding attempt

  /** The state before step `i` of a run from empty tables. */
  function At(clock: int, actions: seq<Action>, i: nat): State
    requires i <= |actions|
  {
    Run(Init(clock), actions[..i])
  }

  lemma {:induction false} RunLast(s: State, actions: seq<Action>)
    requires |actions| > 0
    ensures Run(s, actions) == Apply(Run(s, actions[..|actions| - 1]), actions[|actions| - 1])
    decreases |actions|
  {
    if |actions| > 1 {
      RunLast(Apply(s, actions[0]), actions[1..]);
      assert actions[1..][..|actions| - 2] == actions[..|actions| - 1][1..];
    }
  }

  lemma AtNext(clock: int, actions: seq<Action>, i: nat)
    requires i < |actions|
    ensures At(clock, actions, i + 1) == Apply(At(clock, actions, i), actions[i])
  {
    RunLast(Init(clock), actions[..i + 1]);
    assert actions[..i + 1][..i] == actions[..i];
  }

  lemma {:induction false} OverLater(clock: int, actions: seq<Action>, tx: nat, i: nat, j: nat)
    requires i <= j <= |actions| && Over(At(clock, actions, i), tx)
    ensures Over(At(clock, actions, j), tx)
    ensures At(clock, actions, j).txs[tx] == At(clock, actions, i).txs[tx]
    decreases j
  {
    if i < j {
      OverLater(clock, actions, tx, i, j - 1);
      AtNext(clock, actions, j - 1);
      OverStays(At(clock, actions, j - 1), actions[j - 1], tx);
    }
  }

  /** The step at which a call is over. */
  lemma {:induction false} TurnsOver(clock: int, actions: seq<Action>, tx: nat, j: nat) returns (n: nat)
    requires j <= |actions| && Over(At(clock, actions, j), tx)
    ensures n < j && !Over(At(clock, actions, n), tx) && Over(At(clock, actions, n + 1), tx)
    decreases j
  {
    assert At(clock, actions, 0) == Init(clock);
    if Over(At(clock, actions, j - 1), tx) {
      n := TurnsOver(clock, actions, tx, j - 1);
    } else {
      n := j - 1;
    }
  }

  /** A step of a call that changes the tables ends the call. */
  lemma WritingEnds(s: State, a: Action, tx: nat)
    requires OfCall(a, tx) && Apply(s, a).db != s.db
    ensures !Over(s, tx) && Over(Apply(s, a), tx)
  {
  }

  /** What an attempt was before it had its lock. */
  function ReadOf(t: Tx): Tx
    requires Attempting(t)
  {
    if t.Begun? then t
    else if t.Leaving? then Begun(t.c, t.attempt, t.id, t.observedAt, t.reply, t.trip)
    else Begun(t.c, t.attempt, t.id, t.observedAt, Claimed(t.prior), Some(t.read))
  }

  /** The attempt `t` took its identifier, and read, in the state `s`. */
  predicate ReadIn(s: State, t: Tx)
    requires Attempting(t)
  {
    Reads(s, t.c, t.attempt, t.id) == ReadOf(t)
  }

  /** A step of its call that does not read leaves an attempt what it has read. */
  lemma StillReads(s: State, a: Action, tx: nat)
    requires tx in Apply(s, a).txs && Attempting(Apply(s, a).txs[tx])
    requires !(OfCall(a, tx) && ReadIn(s, Apply(s, a).txs[tx]))
    ensures tx in s.txs && Attempting(s.txs[tx]) && ReadOf(Apply(s, a).txs[tx]) == ReadOf(s.txs[tx])
  {
    if !OfCall(a, tx) {
      OthersStay(s, a, tx);
    }
  }

  /** Every attempt read at some step of its call. */
  lemma {:induction false} AttemptRead(clock: int, actions: seq<Action>, tx: nat, j: nat) returns (m: nat)
    requires j <= |actions| && tx in At(clock, actions, j).txs && Attempting(At(clock, actions, j).txs[tx])
    ensures m < j && OfCall(actions[m], tx) && ReadIn(At(clock, actions, m), At(clock, actions, j).txs[tx])
    decreases j
  {
    assert At(clock, actions, 0) == Init(clock);
    AtNext(clock, actions, j - 1);
    var s := At(clock, actions, j - 1);
    if OfCall(actions[j - 1], tx) && ReadIn(s, At(clock, actions, j).txs[tx]) {
      m := j - 1;
    } else {
      StillReads(s, actions[j - 1], tx);
      m := AttemptRead(clock, actions, tx, j - 1);
    }
  }

  // ---------------------------------------------------------------- how many attempts

  predicate Starts(s: State, a: Action, tx: nat) {
    || (a.Begin? && a.tx == tx && tx !in s.txs)
    || (a.Retry? && a.tx == tx && tx in s.txs && s.txs[tx].Waiting?)
  }

  /** The attempts a call has started in a run. */
  function AttemptsMade(clock: int, actions: seq<Action>, tx: nat): nat {
    if |actions| == 0 then 0
    else
      var before := actions[..|actions| - 1];
      AttemptsMade(clock, before, tx)
      + if Starts(Run(Init(clock), before), actions[|actions| - 1], tx) then 1 else 0
  }

  /** What a call is doing, after `made` attempts. */
  predicate MadeInv(s: State, tx: nat, made: nat) {
    if tx !in s.txs then made == 0
    else
      match s.txs[tx]
      case Begun(_, attempt, _, _, _, _) => 1 <= made == attempt <= 3
      case Ready(_, attempt, _, _, _, _) => 1 <= made == attempt <= 3
      case Leaving(_, attempt, _, _, _, _, outcome) =>
        1 <= made == attempt <= 3 && outcome != Refused(RetriesExhausted)
      case Waiting(_, attempt) => 1 <= made == attempt < 3
      case Editing(_, _) => made == 0
      case Answered(_, outcome) => 1 <= made <= 3 && (outcome == Refused(RetriesExhausted) ==> made == 3)
      case Closed => made <= 3
  }

  lemma MadeStep(s: State, a: Action, tx: nat, made: nat)
    requires MadeInv(s, tx, made)
    ensures MadeInv(Apply(s, a), tx, made + if Starts(s, a, tx) then 1 else 0)
  {
    if OfCall(a, tx) {
      if a.Lock? && tx in s.txs && s.txs[tx].Begun? {
        LockAnswers(s.txs, s.txs[tx]);
      }
    } else {
      OthersStay(s, a, tx);
    }
  }

  /** A call makes at most three attempts, and gives up only after all three. */
  lemma {:induction false} AttemptsAreBounded(clock: int, actions: seq<Action>, tx: nat)
    ensures MadeInv(Run(Init(clock), actions), tx, AttemptsMade(clock, actions, tx))
    ensures AttemptsMade(clock, actions, tx) <= 3
    decreases |actions|
  {
    if |actions| > 0 {
      var last := |actions| - 1;
      AttemptsAreBounded(clock, actions[..last], tx);
      RunLast(Init(clock), actions);
      MadeStep(Run(Init(clock), actions[..last]), actions[last], tx, AttemptsMade(clock, actions[..last], tx));
    }
  }

  // ---------------------------------------------------------------- the answer

  /**
   What the attempt `t`, which read in `at` and is ended by the step `a` in `s`, answers: the
   use case alone at the instant of its commit, or alone at the instant of its reads; or the
   refusal of the lock, of a guard of its writes, or of the third conflict.
   */
  predicate Decides(at: State, s: State, a: Action, t: Tx, outcome: Outcome)
    requires Attempting(t)
  {
    match a
    case Lock(_) =>
      outcome == Refused(KeyInProgress) && Locked(s.txs, SlotOf(t.c))
    case Commit(_, heard) =>
      if t.Leaving? then
        outcome == if heard then Submit(at.db, t.c, t.id, at.clock, at.clock).1 else Refused(ConnectionFailed)
      else
        t.Ready?
        && var done := Finish(s.db, t.c, t.id, t.prior, t.read, s.clock);
           if done.Ok? then
             outcome == if heard then Submit(s.db, t.c, t.id, s.clock, s.clock).1 else Refused(ConnectionFailed)
           else if Retryable(done.error) then t.attempt == 3 && outcome == Refused(RetriesExhausted)
           else outcome == Refused(done.error)
    case Conflict(_) => t.attempt == 3 && outcome == Refused(RetriesExhausted)
    case Fail(_) => outcome == Refused(ConnectionFailed)
    case _ => false
  }

  /** A verdict is what the use case answers, alone at the instant of the reads. */
  lemma VerdictIsAlone(at: State, t: Tx)
    requires t.Leaving? && ReadIn(at, t) && Verdict(t.c, t.observedAt, t.reply, t.trip) == Some(t.outcome)
    ensures t.outcome == Submit(at.db, t.c, t.id, at.clock, at.clock).1
  {
  }

  lemma StepDecides(at: State, s: State, a: Action, tx: nat, made: nat)
    requires Inv(s) && MadeInv(s, tx, made) && !Over(s, tx) && Over(Apply(s, a), tx)
    requires Apply(s, a).txs[tx].Answered?
    ensures OfCall(a, tx) && tx in s.txs && Attempting(s.txs[tx])
    ensures ReadIn(at, s.txs[tx]) ==> Decides(at, s, a, s.txs[tx], Apply(s, a).txs[tx].outcome)
    ensures Apply(s, a).db == if Places(s, a) then Submit(s.db, s.txs[tx].c, s.txs[tx].id, s.clock, s.clock).0 else s.db
  {
    if !OfCall(a, tx) {
      OthersStay(s, a, tx);
    } else if Places(s, a) {
      CommitIsAtomic(s, tx, a.heard);
      WritingStep(s, a);
    } else if s.txs[tx].Leaving? && ReadIn(at, s.txs[tx]) {
      assert TxInv(s, s.txs[tx]);
      VerdictIsAlone(at, s.txs[tx]);
    }
  }

  /**
   An answered call was answered by one of its attempts: the one that read at step `m` and
   ended at step `n`. That step has the effect on the tables of the whole use case run alone
   if the attempt commits and none otherwise, and no other step of the call, of this attempt
   or of the ones before it, changed the tables at all.
   */
  lemma OneAttemptAnswers(clock: int, actions: seq<Action>, tx: nat) returns (m: nat, n: nat)
    requires tx in Run(Init(clock), actions).txs && Run(Init(clock), actions).txs[tx].Answered?
    ensures m < n < |actions| && OfCall(actions[m], tx) && OfCall(actions[n], tx)
    ensures var (at, s) := (At(clock, actions, m), At(clock, actions, n));
            && tx in s.txs && Attempting(s.txs[tx]) && ReadIn(at, s.txs[tx])
            && Decides(at, s, actions[n], s.txs[tx], Run(Init(clock), actions).txs[tx].outcome)
            && At(clock, actions, n + 1).db
               == if Places(s, actions[n]) then Submit(s.db, s.txs[tx].c, s.txs[tx].id, s.clock, s.clock).0 else s.db
    ensures forall i :: 0 <= i < |actions| && i != n && OfCall(actions[i], tx) ==>
              At(clock, actions, i + 1).db == At(clock, actions, i).db
  {
    assert actions[..|actions|] == actions;
    n := TurnsOver(clock, actions, tx, |actions|);
    AtNext(clock, actions, n);
    OverLater(clock, actions, tx, n + 1, |actions|);
    var s, a := At(clock, actions, n), actions[n];
    InitInv(clock);
    InvRun(Init(clock), actions[..n]);
    AttemptsAreBounded(clock, actions[..n], tx);
    StepDecides(s, s, a, tx, AttemptsMade(clock, actions[..n], tx));
    m := AttemptRead(clock, actions, tx, n);
    StepDecides(At(clock, actions, m), s, a, tx, AttemptsMade(clock, actions[..n], tx));
    forall i | 0 <= i < |actions| && i != n && OfCall(actions[i], tx)
      ensures At(clock, actions, i + 1).db == At(clock, actions, i).db
    {
      OtherStepsWriteNothing(clock, actions, tx, n, i);
    }
  }

  lemma OtherStepsWriteNothing(clock: int, actions: seq<Action>, tx: nat, n: nat, i: nat)
    requires n < |actions| && i < |actions| && i != n && OfCall(actions[i], tx)
    requires !Over(At(clock, actions, n), tx) && Over(At(clock, actions, n + 1), tx)
    ensures At(clock, actions, i + 1).db == At(clock, actions, i).db
  {
    AtNext(clock, actions, i);
    if Apply(At(clock, actions, i), actions[i]).db != At(clock, actions, i).db {
      WritingEnds(At(clock, actions, i), actions[i], tx);
      if i < n {
        OverLater(clock, actions, tx, i + 1, n);
      } else {
        OverLater(clock, actions, tx, n + 1, i);
      }
    }
  }
}
