/**
 The policy table of the limiter and the limits built from it for one request. Compound
 subjects are framed by length and hashed; `hash` is the hexadecimal SHA-256 of the UTF-8
 form of a text. UTF-8 writes U+FFFD for a lone surrogate, so the hash sees scrubbed text.
 */
module AbusePolicy {
  import opened Wrappers
  import opened Text
  import opened AbuseProtection
  import AbuseRuns

  datatype Actor = Actor(accountId: Text, sessionId: Text)

  datatype Context = Context(
    actor: Option<Actor>, device: Option<Text>, network: Text, session: Option<Text>, target: Option<Text>)

  datatype ContextError = Invalid | Missing

  datatype Source = FromAccount | FromAccountTarget | FromDevice | FromNetwork | FromNetworkTarget | FromSession

  datatype Definition = Definition(axis: Axis, source: Source, maximumAttempts: int, windowMs: int, required: bool)

  datatype PolicyName =
    | AuthCallback | AuthStart | DiscussionAnswer | DiscussionQuestion | ModerationTrip | OrderSubmit
    | ProfileCreate | PublicTripDetail | PublicTripList | SessionLogout | SessionValidate | TripCreate | TripSubmit

  const MINUTE := 60_000

  function PerActor(network: int, account: int): seq<Definition> {
    [Definition(Network, FromNetwork, network, MINUTE, true),
     Definition(Account, FromAccount, account, 10 * MINUTE, true),
     Definition(Session, FromSession, account, 10 * MINUTE, true)]
  }

  function PerTarget(network: int, account: int, target: int): seq<Definition> {
    PerActor(network, account) + [Definition(Target, FromAccountTarget, target, 10 * MINUTE, true)]
  }

  function Definitions(policy: PolicyName): seq<Definition> {
    match policy
    case AuthCallback =>
      [Definition(Network, FromNetwork, 20, 10 * MINUTE, true), Definition(Device, FromDevice, 8, 10 * MINUTE, false)]
    case AuthStart => [Definition(Network, FromNetwork, 10, 10 * MINUTE, true)]
    case DiscussionAnswer => PerTarget(30, 12, 6)
    case DiscussionQuestion => PerTarget(30, 12, 6)
    case ModerationTrip => PerTarget(20, 10, 4)
    case OrderSubmit => PerTarget(20, 8, 4)
    case ProfileCreate => PerActor(30, 6)
    case PublicTripDetail =>
      [Definition(Network, FromNetwork, 120, MINUTE, true), Definition(Target, FromNetworkTarget, 60, MINUTE, true)]
    case PublicTripList => [Definition(Network, FromNetwork, 120, MINUTE, true)]
    case SessionLogout =>
      [Definition(Network, FromNetwork, 60, MINUTE, true), Definition(Session, FromSession, 10, MINUTE, false)]
    case SessionValidate =>
      [Definition(Network, FromNetwork, 120, MINUTE, true), Definition(Session, FromSession, 60, MINUTE, true)]
    case TripCreate => PerActor(60, 20)
    case TripSubmit => PerTarget(30, 10, 5)
  }

  function StorageKey(policy: PolicyName): Text {
    match policy
    case AuthCallback => Ascii("auth.callback.v1")
    case AuthStart => Ascii("auth.start.v1")
    case DiscussionAnswer => Ascii("discussion.answer.v1")
    case DiscussionQuestion => Ascii("discussion.question.v1")
    case ModerationTrip => Ascii("moderation.trip.v1")
    case OrderSubmit => Ascii("order.submit.v1")
    case ProfileCreate => Ascii("profile.create.v1")
    case PublicTripDetail => Ascii("public.trip-detail.v1")
    case PublicTripList => Ascii("public.trip-list.v1")
    case SessionLogout => Ascii("session.logout.v1")
    case SessionValidate => Ascii("session.validate.v1")
    case TripCreate => Ascii("trip.create.v1")
    case TripSubmit => Ascii("trip.submit.v1")
  }

  // ---------------------------------------------------------------- compound subjects

  /** The text hashed for a pair: each part after its length. */
  function Frame(first: Text, second: Text): Text {
    Decimal(|first|) + ([COLON] + (Scrub(first) + (Decimal(|second|) + ([COLON] + Scrub(second)))))
  }

  lemma CancelPart(a: Text, x: Text, b: Text, y: Text)
    requires Decimal(|a|) + ([COLON] + (Scrub(a) + x)) == Decimal(|b|) + ([COLON] + (Scrub(b) + y))
    ensures Scrub(a) == Scrub(b) && x == y
  {
    var s, t := [COLON] + (Scrub(a) + x), [COLON] + (Scrub(b) + y);
    ReadNatural(|a|, s);
    ReadNatural(|b|, t);
    assert |a| == |b| && s == t;
    assert s[1..] == Scrub(a) + x && t[1..] == Scrub(b) + y;
    assert Scrub(a) == (Scrub(a) + x)[..|a|] && Scrub(b) == (Scrub(b) + y)[..|b|];
    assert x == (Scrub(a) + x)[|a|..] && y == (Scrub(b) + y)[|b|..];
  }

  /**
   Two compound subjects are hashed from one text exactly when their parts are the same up
   to lone surrogates; so well-formed pairs never collide.
   */
  lemma FrameInjective(a: Text, b: Text, c: Text, d: Text)
    ensures Frame(a, b) == Frame(c, d) <==> Scrub(a) == Scrub(c) && Scrub(b) == Scrub(d)
  {
    if Frame(a, b) == Frame(c, d) {
      CancelPart(a, Decimal(|b|) + ([COLON] + Scrub(b)), c, Decimal(|d|) + ([COLON] + Scrub(d)));
      assert Scrub(b) + [] == Scrub(b) && Scrub(d) + [] == Scrub(d);
      CancelPart(b, [], d, []);
    }
  }

  lemma WellFormedPairsNeverCollide(a: Text, b: Text, c: Text, d: Text)
    requires WellFormed(a) && WellFormed(b) && WellFormed(c) && WellFormed(d)
    ensures Frame(a, b) == Frame(c, d) <==> a == c && b == d
  {
    ScrubKeepsWellFormed(a);
    ScrubKeepsWellFormed(b);
    ScrubKeepsWellFormed(c);
    ScrubKeepsWellFormed(d);
    FrameInjective(a, b, c, d);
  }

  /** Subjects made of two different lone surrogates pass validation and are hashed from one text. */
  lemma LoneSurrogatesCollide(second: Text)
    ensures BoundedText([0xD800], 512) && BoundedText([0xD801], 512) && [0xD800] != [0xD801]
    ensures Frame([0xD800], second) == Frame([0xD801], second)
  {
    assert Scrub([0xD800]) == [0xFFFD] + Scrub([]) == Scrub([0xD801]);
    FrameInjective([0xD800], second, [0xD801], second);
  }

  // ---------------------------------------------------------------- limits

  function Checked(subject: Option<Text>): Result<Option<Text>, ContextError> {
    if subject.Some? && !BoundedText(subject.value, 512) then Err(Invalid) else Ok(subject)
  }

  function CompoundSubject(hash: Text -> Text, first: Option<Text>, second: Option<Text>)
    : Result<Option<Text>, ContextError>
  {
    if Checked(first).Err? || Checked(second).Err? then Err(Invalid)
    else if first.None? || second.None? then Ok(None)
    else Ok(Some(hash(Frame(first.value, second.value))))
  }

  function AccountOf(context: Context): Option<Text> {
    if context.actor.None? then None else Some(context.actor.value.accountId)
  }

  function SubjectFor(hash: Text -> Text, source: Source, context: Context): Result<Option<Text>, ContextError> {
    match source
    case FromAccount => Checked(AccountOf(context))
    case FromAccountTarget => CompoundSubject(hash, AccountOf(context), context.target)
    case FromSession =>
      Checked(if context.actor.Some? then Some(context.actor.value.sessionId) else context.session)
    case FromDevice => Checked(context.device)
    case FromNetworkTarget => CompoundSubject(hash, Some(context.network), context.target)
    case FromNetwork => Checked(Some(context.network))
  }

  function BuildFrom(hash: Text -> Text, definitions: seq<Definition>, context: Context)
    : Result<seq<Limit>, ContextError>
  {
    if |definitions| == 0 then Ok([])
    else
      var d := definitions[0];
      var subject := SubjectFor(hash, d.source, context);
      if subject.Err? then Err(subject.error)
      else if subject.value.None? && d.required then Err(Missing)
      else
        var rest := BuildFrom(hash, definitions[1..], context);
        if rest.Err? then rest
        else if subject.value.None? then rest
        else Ok([Limit(d.axis, d.maximumAttempts, subject.value.value, d.windowMs)] + rest.value)
  }

  function BuildAbuseLimits(hash: Text -> Text, policy: PolicyName, context: Context): Result<seq<Limit>, ContextError> {
    BuildFrom(hash, Definitions(policy), context)
  }

  /** Digests are 64 hexadecimal digits. */
  ghost predicate Hexadecimal(hash: Text -> Text) {
    forall t :: BoundedText(hash(t), 512)
  }

  predicate DefinitionsFit(definitions: seq<Definition>) {
    && (forall i, j :: 0 <= i < j < |definitions| ==> definitions[i].axis != definitions[j].axis)
    && (forall d <- definitions :: 1 <= d.maximumAttempts <= 10_000 && 1_000 <= d.windowMs <= MAXIMUM_WINDOW_MS)
  }

  /** A built limit comes from a definition of its axis and has a subject the limiter accepts. */
  predicate Built(definitions: seq<Definition>, limit: Limit) {
    && BoundedText(limit.subject, 512)
    && exists d <- definitions ::
         d.axis == limit.axis && d.maximumAttempts == limit.maximumAttempts && d.windowMs == limit.windowMs
  }

  lemma BuiltLater(first: Definition, rest: seq<Definition>, limit: Limit)
    requires Built(rest, limit)
    ensures Built([first] + rest, limit)
  {
    var d :| d in rest
      && d.axis == limit.axis && d.maximumAttempts == limit.maximumAttempts && d.windowMs == limit.windowMs;
    assert d in [first] + rest;
  }

  lemma {:induction false} BuiltFromDefinitions(hash: Text -> Text, definitions: seq<Definition>, context: Context)
    requires Hexadecimal(hash) && DefinitionsFit(definitions)
    requires BuildFrom(hash, definitions, context).Ok?
    ensures var limits := BuildFrom(hash, definitions, context).value;
            && |limits| <= |definitions| && DistinctAxes(limits)
            && (forall limit <- limits :: Built(definitions, limit))
            && (|definitions| > 0 && definitions[0].required ==> |limits| > 0)
  {
    if |definitions| > 0 {
      var d, rest := definitions[0], definitions[1..];
      BuiltFromDefinitions(hash, rest, context);
      assert definitions == [d] + rest;
      var limits, others := BuildFrom(hash, definitions, context).value, BuildFrom(hash, rest, context).value;
      forall limit | limit in others
        ensures Built(definitions, limit) && limit.axis != d.axis
      {
        BuiltLater(d, rest, limit);
      }
      if limits != others {
        assert limits == [limits[0]] + others && d in definitions;
        assert Built(definitions, limits[0]);
      }
    }
  }

  lemma PerTargetFits(network: int, account: int, target: int)
    requires 1 <= network <= 10_000 && 1 <= account <= 10_000 && 1 <= target <= 10_000
    ensures DefinitionsFit(PerActor(network, account)) && DefinitionsFit(PerTarget(network, account, target))
  {
    var d := PerTarget(network, account, target);
    assert d[0].axis == Network && d[1].axis == Account && d[2].axis == Session && d[3].axis == Target;
  }

  lemma OneFits(d: Definition)
    requires 1 <= d.maximumAttempts <= 10_000 && 1_000 <= d.windowMs <= MAXIMUM_WINDOW_MS
    ensures DefinitionsFit([d])
  {
  }

  lemma TwoFit(d: Definition, e: Definition)
    requires 1 <= d.maximumAttempts <= 10_000 && 1_000 <= d.windowMs <= MAXIMUM_WINDOW_MS
    requires 1 <= e.maximumAttempts <= 10_000 && 1_000 <= e.windowMs <= MAXIMUM_WINDOW_MS
    requires d.axis != e.axis
    ensures DefinitionsFit([d, e])
  {
  }

  /** Every policy of the table has one to five axes, all different, within the limiter's bounds. */
  lemma TableFits(policy: PolicyName)
    ensures DefinitionsFit(Definitions(policy)) && 1 <= |Definitions(policy)| <= 5
    ensures Definitions(policy)[0].required
  {
    var d := Definitions(policy);
    match policy
    case AuthCallback => TwoFit(d[0], d[1]);
    case AuthStart => OneFits(d[0]);
    case DiscussionAnswer => PerTargetFits(30, 12, 6);
    case DiscussionQuestion => PerTargetFits(30, 12, 6);
    case ModerationTrip => PerTargetFits(20, 10, 4);
    case OrderSubmit => PerTargetFits(20, 8, 4);
    case ProfileCreate => PerTargetFits(30, 6, 1);
    case PublicTripDetail => TwoFit(d[0], d[1]);
    case PublicTripList => OneFits(d[0]);
    case SessionLogout => TwoFit(d[0], d[1]);
    case SessionValidate => TwoFit(d[0], d[1]);
    case TripCreate => PerTargetFits(60, 20, 1);
    case TripSubmit => PerTargetFits(30, 10, 5);
  }

  // ---------------------------------------------------------------- one rule per policy and axis

  lemma KeyShape(policy: PolicyName)
    ensures var t := StorageKey(policy);
            && |t| > 5
            && match policy
               case AuthCallback => |t| == 16
               case AuthStart => |t| == 13
               case DiscussionAnswer => |t| == 20
               case DiscussionQuestion => |t| == 22
               case ModerationTrip => |t| == 18
               case OrderSubmit => |t| == 15
               case ProfileCreate => |t| == 17 && t[0] == 112
               case PublicTripDetail => |t| == 21
               case PublicTripList => |t| == 19 && t[0] == 112
               case SessionLogout => |t| == 17 && t[0] == 115
               case SessionValidate => |t| == 19 && t[0] == 115
               case TripCreate => |t| == 14 && t[5] == 99
               case TripSubmit => |t| == 14 && t[5] == 115
  {
  }

  lemma StorageKeysDistinct(policy: PolicyName, other: PolicyName)
    ensures StorageKey(policy) == StorageKey(other) <==> policy == other
  {
    KeyShape(policy);
    KeyShape(other);
  }

  predicate HasRule(policy: PolicyName, axis: Axis, rule: AbuseRuns.Rule) {
    exists d <- Definitions(policy) ::
      d.axis == axis && d.maximumAttempts == rule.maximumAttempts && d.windowMs == rule.windowMs
  }

  ghost predicate Says(name: Text, axis: Axis, rule: AbuseRuns.Rule) {
    exists p :: StorageKey(p) == name && HasRule(p, axis, rule)
  }

  /** The rule the table has for a stored policy name and an axis. */
  ghost function TableRule(name: Text, axis: Axis): AbuseRuns.Rule {
    if exists rule :: Says(name, axis, rule)
    then
      var rule :| Says(name, axis, rule);
      rule
    else AbuseRuns.Rule(1, 1_000)
  }

  lemma RuleIsUnique(policy: PolicyName, axis: Axis, rule: AbuseRuns.Rule, other: AbuseRuns.Rule)
    requires HasRule(policy, axis, rule) && HasRule(policy, axis, other)
    ensures rule == other
  {
    TableFits(policy);
  }

  lemma SaysOnce(name: Text, axis: Axis, rule: AbuseRuns.Rule, other: AbuseRuns.Rule)
    requires Says(name, axis, rule) && Says(name, axis, other)
    ensures rule == other
  {
    var p :| StorageKey(p) == name && HasRule(p, axis, rule);
    var q :| StorageKey(q) == name && HasRule(q, axis, other);
    StorageKeysDistinct(p, q);
    RuleIsUnique(p, axis, rule, other);
  }

  lemma TableRuleIs(name: Text, axis: Axis, rule: AbuseRuns.Rule)
    requires Says(name, axis, rule)
    ensures TableRule(name, axis) == rule
  {
    SaysOnce(name, axis, rule, TableRule(name, axis));
  }

  /**
   Whatever the context, the limits built for a policy pass the limiter's validation and
   follow one rule per stored policy name and axis, as the counters assume.
   */
  lemma BuiltLimitsConform(hash: Text -> Text, policy: PolicyName, context: Context, correlationId: Text)
    requires Hexadecimal(hash) && BuildAbuseLimits(hash, policy, context).Ok?
    ensures var limits := BuildAbuseLimits(hash, policy, context).value;
            && ValidLimits(limits)
            && AbuseRuns.Conforms(Request(StorageKey(policy), correlationId, limits), TableRule)
  {
    var limits := BuildAbuseLimits(hash, policy, context).value;
    TableFits(policy);
    BuiltFromDefinitions(hash, Definitions(policy), context);
    forall limit | limit in limits
      ensures ValidLimit(limit)
      ensures TableRule(StorageKey(policy), limit.axis) == AbuseRuns.Rule(limit.maximumAttempts, limit.windowMs)
    {
      assert Built(Definitions(policy), limit);
      var rule := AbuseRuns.Rule(limit.maximumAttempts, limit.windowMs);
      assert HasRule(policy, limit.axis, rule);
      assert Says(StorageKey(policy), limit.axis, rule);
      TableRuleIs(StorageKey(policy), limit.axis, rule);
    }
  }
}
