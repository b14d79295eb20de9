/**
 Whom the limits built for a request limit: on each axis of its policy the party the request
 names, so that two requests share a bucket exactly when they come from one party in one window.
 */
module AbuseParties {
  import opened Wrappers
  import opened Text
  import opened AbuseProtection
  import opened AbuseLimits
  import opened AbusePolicy
  import opened AbuseSubjects

  /** Whom an axis of a policy limits: one name, or a name together with the target. */
  datatype Party = Sole(name: Text) | WithTarget(name: Text, target: Text)

  /** A session's own name if there is an actor, and the one the request carries otherwise. */
  function SessionName(context: Context): Option<Text> {
    if context.actor.Some? then Some(context.actor.value.sessionId) else context.session
  }

  function Paired(name: Option<Text>, target: Option<Text>): Option<Party> {
    if name.Some? && target.Some? then Some(WithTarget(name.value, target.value)) else None
  }

  function Alone(name: Option<Text>): Option<Party> {
    if name.Some? then Some(Sole(name.value)) else None
  }

  function PartyOf(policy: PolicyName, axis: Axis, context: Context): Option<Party> {
    match axis
    case Network => Some(Sole(context.network))
    case Account => Alone(if context.actor.Some? then Some(context.actor.value.accountId) else None)
    case Session => Alone(SessionName(context))
    case Device => Alone(context.device)
    case Target =>
      Paired(if policy == PublicTripDetail then Some(context.network)
             else if context.actor.Some? then Some(context.actor.value.accountId) else None,
             context.target)
  }

  /** The subject that stands for a party. */
  function SubjectOf(hash: Text -> Text, party: Party): Text {
    match party
    case Sole(name) => name
    case WithTarget(name, target) => hash(Frame(name, target))
  }

  predicate AxisOf(policy: PolicyName, axis: Axis) {
    exists d <- Definitions(policy) :: d.axis == axis
  }

  /** The source of each definition of the table is that of its axis. */
  predicate SourceFits(policy: PolicyName, d: Definition) {
    match d.axis
    case Network => d.source == FromNetwork
    case Account => d.source == FromAccount
    case Session => d.source == FromSession
    case Device => d.source == FromDevice
    case Target => d.source == if policy == PublicTripDetail then FromNetworkTarget else FromAccountTarget
  }

  lemma SubjectIsPartys(hash: Text -> Text, policy: PolicyName, d: Definition, context: Context)
    requires SourceFits(policy, d) && SubjectFor(hash, d.source, context).Ok?
    ensures var party := PartyOf(policy, d.axis, context);
            SubjectFor(hash, d.source, context).value
            == if party.Some? then Some(SubjectOf(hash, party.value)) else None
  {
  }

  lemma {:induction false} BuiltForParties(
      hash: Text -> Text, policy: PolicyName, definitions: seq<Definition>, context: Context)
    requires BuildFrom(hash, definitions, context).Ok?
    requires forall d <- definitions :: SourceFits(policy, d)
    ensures var limits := BuildFrom(hash, definitions, context).value;
            && (forall l <- limits ::
                  var party := PartyOf(policy, l.axis, context);
                  party.Some? && l.subject == SubjectOf(hash, party.value))
            && (forall d <- definitions :: PartyOf(policy, d.axis, context).Some? ==>
                  exists l <- limits :: l.axis == d.axis)
            && (forall d <- definitions :: d.required ==> PartyOf(policy, d.axis, context).Some?)
  {
    if |definitions| > 0 {
      var d, rest := definitions[0], definitions[1..];
      assert definitions == [d] + rest && d in definitions;
      assert forall e <- rest :: e in definitions;
      SubjectIsPartys(hash, policy, d, context);
      BuiltForParties(hash, policy, rest, context);
      var limits, others := BuildFrom(hash, definitions, context).value, BuildFrom(hash, rest, context).value;
      if limits != others {
        assert limits == [limits[0]] + others && limits[0] in limits;
      }
      forall e | e in definitions && PartyOf(policy, e.axis, context).Some?
        ensures exists l <- limits :: l.axis == e.axis
      {
        if e in rest {
          var l :| l in others && l.axis == e.axis;
          assert l in limits;
        }
      }
    }
  }

  lemma TableSources(policy: PolicyName)
    ensures forall d <- Definitions(policy) :: SourceFits(policy, d)
  {
  }

  /**
   The limits built for a policy limit, on each axis of the policy whose party the request
   names, exactly that party, and on no other axis; every required party is named.
   */
  lemma LimitsAreForParties(hash: Text -> Text, policy: PolicyName, context: Context, axis: Axis)
    requires BuildAbuseLimits(hash, policy, context).Ok?
    ensures var limits := BuildAbuseLimits(hash, policy, context).value;
            && ((exists l <- limits :: l.axis == axis) <==> AxisOf(policy, axis) && PartyOf(policy, axis, context).Some?)
            && (forall l <- limits :: l.axis == axis && PartyOf(policy, axis, context).Some? ==>
                  l.subject == SubjectOf(hash, PartyOf(policy, axis, context).value))
  {
    TableSources(policy);
    BuiltForParties(hash, policy, Definitions(policy), context);
    AxesAreTheTables(hash, Definitions(policy), context, axis);
  }

  lemma {:induction false} AxesAreTheTables(
      hash: Text -> Text, definitions: seq<Definition>, context: Context, axis: Axis)
    requires BuildFrom(hash, definitions, context).Ok?
    ensures (exists l <- BuildFrom(hash, definitions, context).value :: l.axis == axis) ==>
              exists d <- definitions :: d.axis == axis
  {
    if |definitions| > 0 {
      AxesAreTheTables(hash, definitions[1..], context, axis);
      assert definitions == [definitions[0]] + definitions[1..];
    }
  }

  // ---------------------------------------------------------------- which requests have limits

  /** The texts of a request that an axis of a policy looks at. */
  function PartsOf(policy: PolicyName, axis: Axis, context: Context): seq<Option<Text>> {
    var account := if context.actor.Some? then Some(context.actor.value.accountId) else None;
    match axis
    case Network => [Some(context.network)]
    case Account => [account]
    case Session => [SessionName(context)]
    case Device => [context.device]
    case Target => [if policy == PublicTripDetail then Some(context.network) else account, context.target]
  }

  predicate PartFits(t: Option<Text>) {
    t.Some? ==> Plain(t.value, 512)
  }

  predicate PartsFit(policy: PolicyName, axis: Axis, context: Context) {
    forall part <- PartsOf(policy, axis, context) :: PartFits(part)
  }

  /** What a request must meet, axis by axis: the texts looked at are plain, and a required party is named. */
  function ContextChecks(policy: PolicyName, definitions: seq<Definition>, context: Context): seq<(bool, ContextError)> {
    if |definitions| == 0 then []
    else
      var d := definitions[0];
      [(PartsFit(policy, d.axis, context), Invalid), (d.required ==> PartyOf(policy, d.axis, context).Some?, Missing)]
      + ContextChecks(policy, definitions[1..], context)
  }

  lemma CheckedIff(t: Option<Text>)
    ensures Checked(t).Ok? <==> PartFits(t)
    ensures Checked(t).Err? ==> Checked(t).error == Invalid
  {
    if t.Some? {
      PlainIff(t.value, 512);
    }
  }

  lemma PairIff(hash: Text -> Text, first: Option<Text>, second: Option<Text>)
    ensures CompoundSubject(hash, first, second).Ok? <==> PartFits(first) && PartFits(second)
    ensures CompoundSubject(hash, first, second).Err? ==> CompoundSubject(hash, first, second).error == Invalid
  {
    CheckedIff(first);
    CheckedIff(second);
  }

  lemma PartsFitIff(policy: PolicyName, axis: Axis, context: Context)
    ensures PartsFit(policy, axis, context) <==>
              var parts := PartsOf(policy, axis, context);
              PartFits(parts[0]) && (|parts| > 1 ==> PartFits(parts[1]))
  {
    var parts := PartsOf(policy, axis, context);
    assert parts[0] in parts && (|parts| > 1 ==> parts[1] in parts);
    assert forall part <- parts :: part == parts[0] || (|parts| > 1 && part == parts[1]);
  }

  lemma SubjectIsLetIn(hash: Text -> Text, policy: PolicyName, d: Definition, context: Context)
    requires SourceFits(policy, d)
    ensures SubjectFor(hash, d.source, context).Ok? <==> PartsFit(policy, d.axis, context)
    ensures SubjectFor(hash, d.source, context).Err? ==> SubjectFor(hash, d.source, context).error == Invalid
  {
    PartsFitIff(policy, d.axis, context);
    var parts := PartsOf(policy, d.axis, context);
    if d.axis == Target {
      PairIff(hash, parts[0], parts[1]);
    } else {
      CheckedIff(parts[0]);
    }
  }

  lemma {:induction false} BuildsInOrder(
      hash: Text -> Text, policy: PolicyName, definitions: seq<Definition>, context: Context)
    requires forall d <- definitions :: SourceFits(policy, d)
    ensures FirstFailing(ContextChecks(policy, definitions, context))
         == var r := BuildFrom(hash, definitions, context); if r.Err? then Some(r.error) else None
  {
    if |definitions| > 0 {
      var d, rest := definitions[0], definitions[1..];
      assert d in definitions && forall e <- rest :: e in definitions;
      SubjectIsLetIn(hash, policy, d, context);
      if SubjectFor(hash, d.source, context).Ok? {
        SubjectIsPartys(hash, policy, d, context);
      }
      BuildsInOrder(hash, policy, rest, context);
      var checks := ContextChecks(policy, definitions, context);
      FailingFrom(checks, 0);
      FailingFrom(checks, 1);
      assert checks == checks[0..] && checks[2..] == ContextChecks(policy, rest, context);
    }
  }

  /** Limits are built exactly for requests whose texts are plain and whose required parties are named. */
  lemma BuildingIsExact(hash: Text -> Text, policy: PolicyName, context: Context)
    ensures FirstFailing(ContextChecks(policy, Definitions(policy), context))
         == var r := BuildAbuseLimits(hash, policy, context); if r.Err? then Some(r.error) else None
  {
    TableSources(policy);
    BuildsInOrder(hash, policy, Definitions(policy), context);
  }

  // ---------------------------------------------------------------- who shares a bucket

  ghost predicate Injective(hash: Text -> Text) {
    forall a, b :: hash(a) == hash(b) ==> a == b
  }

  /** The parties are the same as UTF-8. */
  predicate SameParty(a: Party, b: Party) {
    if a.Sole? then b.Sole? && Scrub(a.name) == Scrub(b.name)
    else b.WithTarget? && Scrub(a.name) == Scrub(b.name) && Scrub(a.target) == Scrub(b.target)
  }

  lemma SubjectsAgreeIff(hash: Text -> Text, p: Party, q: Party)
    requires Injective(hash) && (p.Sole? <==> q.Sole?)
    requires p.WithTarget? ==>
               Scrub(SubjectOf(hash, p)) == SubjectOf(hash, p) && Scrub(SubjectOf(hash, q)) == SubjectOf(hash, q)
    ensures Scrub(SubjectOf(hash, p)) == Scrub(SubjectOf(hash, q)) <==> SameParty(p, q)
  {
    if p.WithTarget? {
      FrameInjective(p.name, p.target, q.name, q.target);
    }
  }

  lemma SubjectIs(hash: Text -> Text, policy: PolicyName, axis: Axis, c: Context, x: Limit)
    requires BuildAbuseLimits(hash, policy, c).Ok? && x in BuildAbuseLimits(hash, policy, c).value && x.axis == axis
    ensures PartyOf(policy, axis, c).Some? && x.subject == SubjectOf(hash, PartyOf(policy, axis, c).value)
    ensures PartyOf(policy, axis, c).value.WithTarget? <==> axis == Target
  {
    LimitsAreForParties(hash, policy, c, axis);
  }

  /**
   Two requests for one policy share a bucket on an axis exactly when that axis limits the same
   party in both and their times lie in one window, given a hash without collisions whose
   digests UTF-8 keeps.
   */
  lemma PartiesShareIff(
      hash: Text -> Text, policy: PolicyName, axis: Axis, c: Context, d: Context, x: Limit, y: Limit, now: int, later: int)
    requires Injective(hash) && forall t :: Scrub(hash(t)) == hash(t)
    requires BuildAbuseLimits(hash, policy, c).Ok? && x in BuildAbuseLimits(hash, policy, c).value && x.axis == axis
    requires BuildAbuseLimits(hash, policy, d).Ok? && y in BuildAbuseLimits(hash, policy, d).value && y.axis == axis
    requires x.windowMs > 0 && x.windowMs == y.windowMs
    ensures PartyOf(policy, axis, c).Some? && PartyOf(policy, axis, d).Some?
    ensures KeyFor(StorageKey(policy), x, now) == KeyFor(StorageKey(policy), y, later) <==>
              SameParty(PartyOf(policy, axis, c).value, PartyOf(policy, axis, d).value)
              && now / x.windowMs == later / x.windowMs
  {
    SubjectIs(hash, policy, axis, c, x);
    SubjectIs(hash, policy, axis, d, y);
    SubjectsAgreeIff(hash, PartyOf(policy, axis, c).value, PartyOf(policy, axis, d).value);
    BucketsAgreeIff(StorageKey(policy), x, now, StorageKey(policy), y, later);
  }
}
