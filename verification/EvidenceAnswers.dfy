/**
 What every evidence call answers and changes, in every reachable state, read off the records:
 which content has which type, what each status means, and for each call when it succeeds, what
 it leaves behind and what it leaves alone.
 */
module EvidenceAnswers {
  import opened Wrappers
  import opened Text
  import opened Evidence
  import opened EvidenceRuns
  import opened EvidenceTheorems

  /** At most 100 MiB, an intent of a minute to a day, a retention of a minute to a year, and some types, each once. */
  lemma PolicyIff(policy: Policy)
    ensures ValidPolicy(policy) <==>
              && 1 <= policy.maximumByteLength <= 100 * 1_024 * 1_024
              && 60 <= policy.uploadIntentTtlSeconds <= 24 * 60 * 60
              && 60 <= policy.acceptedRetentionSeconds <= 365 * 24 * 60 * 60
              && policy.allowedMediaTypes != []
              && forall m: MediaType :: multiset(policy.allowedMediaTypes)[m] <= 1
  {
    if forall m: MediaType :: multiset(policy.allowedMediaTypes)[m] <= 1 {
      forall i, j | 0 <= i < j < |policy.allowedMediaTypes|
        ensures policy.allowedMediaTypes[i] != policy.allowedMediaTypes[j]
      {
        if policy.allowedMediaTypes[i] == policy.allowedMediaTypes[j] {
          Twice(policy.allowedMediaTypes, i, j);
        }
      }
    } else {
      var m: MediaType :| multiset(policy.allowedMediaTypes)[m] > 1;
      var i, j := BothPlaces(policy.allowedMediaTypes, m);
    }
  }

  lemma Twice(types: seq<MediaType>, i: nat, j: nat)
    requires i < j < |types| && types[i] == types[j]
    ensures multiset(types)[types[i]] >= 2
  {
    assert types == types[..i] + [types[i]] + types[i + 1..j] + [types[j]] + types[j + 1..];
  }

  lemma {:induction false} BothPlaces(types: seq<MediaType>, m: MediaType) returns (i: nat, j: nat)
    requires multiset(types)[m] > 1
    ensures i < j < |types| && types[i] == types[j]
  {
    assert types == [types[0]] + types[1..];
    if types[0] == m {
      assert m in types[1..];
      i := 0;
      j :| 0 < j < |types| && types[j] == m;
    } else {
      i, j := BothPlaces(types[1..], m);
      i, j := i + 1, j + 1;
    }
  }

  // ---------------------------------------------------------------- content and status

  /** The first bytes of a JPEG, PNG or WebP file. */
  predicate HasSignature(m: MediaType, c: Bytes) {
    match m
    case Jpeg => |c| >= 3 && c[0] == 255 && c[1] == 216 && c[2] == 255
    case Png =>
      |c| >= 8 && c[0] == 137 && c[1] == 80 && c[2] == 78 && c[3] == 71
      && c[4] == 13 && c[5] == 10 && c[6] == 26 && c[7] == 10
    case Webp =>
      |c| >= 12 && c[0] == 82 && c[1] == 73 && c[2] == 70 && c[3] == 70
      && c[8] == 87 && c[9] == 69 && c[10] == 66 && c[11] == 80
  }

  /** A content has a type exactly when it starts with that type's signature. */
  lemma MediaTypeIff(c: Bytes, m: MediaType)
    ensures DetectMediaType(c) == Some(m) <==> HasSignature(m, c)
  {
  }

  predicate Allowed(policy: Policy, c: Bytes) {
    1 <= |c| <= policy.maximumByteLength && exists m <- policy.allowedMediaTypes :: HasSignature(m, c)
  }

  predicate Open(r: Record) {
    r.accepted.None? && r.deleted.None?
  }

  /** Open, with content that is allowed. */
  predicate Acceptable(policy: Policy, r: Record) {
    Open(r) && r.upload.Some? && Allowed(policy, r.upload.value)
  }

  predicate Scanned(r: Record) {
    r.scan.Some? && !r.scan.value.verdict.Unavailable?
  }

  lemma AllowedIff(policy: Policy, c: Bytes)
    ensures ContentRejection(policy, c).None? <==> Allowed(policy, c)
  {
    forall m: MediaType
      ensures DetectMediaType(c) == Some(m) <==> HasSignature(m, c)
    {
      MediaTypeIff(c, m);
    }
  }

  /** Each status of a record, read off its fields. */
  lemma StatusIff(policy: Policy, r: Record, now: int)
    requires policy.maximumByteLength >= 1
    ensures var status := StatusOf(policy, r, now);
            && (status == Deleted <==> r.deleted.Some?)
            && (status == Kept <==> r.deleted.None? && r.accepted.Some?)
            && (status == AwaitingUpload <==> Open(r) && r.upload.None? && now < r.intent.expiresAt)
            && (status == Rejected(Expired) <==> Open(r) && r.upload.None? && now >= r.intent.expiresAt)
            && (status == Rejected(EmptyFile) <==> Open(r) && r.upload == Some([]))
            && (status == Rejected(FileTooLarge) <==>
                  Open(r) && r.upload.Some? && |r.upload.value| > policy.maximumByteLength)
            && (status == Rejected(UnsupportedMediaType) <==>
                  && Open(r) && r.upload.Some? && 1 <= |r.upload.value| <= policy.maximumByteLength
                  && !Allowed(policy, r.upload.value))
            && (status == Pending <==> Acceptable(policy, r) && !Scanned(r))
            && (status == Rejected(DigestMismatch) <==>
                  Acceptable(policy, r) && Scanned(r) && r.scan.value.scanned != Some(DigestOf(r.upload.value)))
            && (status == Rejected(ScanRejected) <==>
                  && Acceptable(policy, r) && Scanned(r) && r.scan.value.scanned == Some(DigestOf(r.upload.value))
                  && r.scan.value.verdict == Infected)
            && (status == Verified <==>
                  && Acceptable(policy, r) && Scanned(r) && r.scan.value.scanned == Some(DigestOf(r.upload.value))
                  && r.scan.value.verdict == Clean)
  {
    if r.upload.Some? {
      AllowedIff(policy, r.upload.value);
    }
  }

  // ---------------------------------------------------------------- what stays

  /** The store is as before but for the record of `key`. */
  ghost predicate OnlyRecord(s: Store, t: Store, key: Text) {
    && t.records.Keys == s.records.Keys + {key}
    && (forall k <- s.records :: k != key ==> t.records[k] == s.records[k])
  }

  /** The maps of references are as before. */
  predicate SameReferences(s: Store, t: Store) {
    t.uploadReferences == s.uploadReferences && t.quarantineReferences == s.quarantineReferences
  }

  // ---------------------------------------------------------------- runs

  lemma {:induction false} OneMore(s: State, policy: Policy, actions: seq<Action>, a: Action)
    ensures Run(s, policy, actions + [a]) == Apply(Run(s, policy, actions), policy, a)
    decreases |actions|
  {
    if |actions| > 0 {
      OneMore(Apply(s, policy, actions[0]), policy, actions[1..], a);
      assert (actions + [a])[1..] == actions[1..] + [a];
    } else {
      assert [a][1..] == [];
    }
  }

  /**
   A run goes on by one step at a time. A call waits exactly if its check lets it in; the body of
   a waiting call, an upload and a scan then change the store as they are stated to, and nothing
   waits for any other reason.
   */
  lemma RunsAreCalls(s: State, policy: Policy, actions: seq<Action>, a: Action)
    ensures Run(s, policy, []) == s
    ensures var (now, next) := (Run(s, policy, actions), Run(s, policy, actions + [a]));
            && next.clock == now.clock + (if a.Tick? then a.elapsed else 0)
            && next.creates
               == now.creates
                  + (if a.ArriveCreate? && CreateCheck(now.store, a.create).None? then {a.create} else {})
            && next.accepts
               == now.accepts
                  + (if a.ArriveAccept? && AcceptCheck(now.store, policy, a.query, now.clock).None? then {a.query} else {})
            && next.deletes
               == now.deletes
                  + (if a.ArriveDelete? && DeleteCheck(now.store, a.delete, now.clock).None? then {a.delete} else {})
            && next.store
               == (if a.RunCreate? && a.create in now.creates then CreateBody(now.store, policy, a.create, now.clock).0
                   else if a.RunAccept? && a.query in now.accepts then AcceptBody(now.store, policy, a.query, now.clock).0
                   else if a.RunDelete? && a.delete in now.deletes then DeleteBody(now.store, a.delete, now.clock).0
                   else if a.UploadContent? then Upload(now.store, a.reference, a.content, now.clock).0
                   else if a.ScanContent? then RecordScan(now.store, a.reference, a.scan).0
                   else now.store)
  {
    OneMore(s, policy, actions, a);
    var now := Run(s, policy, actions);
    if a.UploadContent? && Upload(now.store, a.reference, a.content, now.clock).1.Some? {
      assert Upload(now.store, a.reference, a.content, now.clock).0 == now.store;
    }
  }

  // ---------------------------------------------------------------- creation

  /** An identity: 3 to 128 letters, digits and separators, the first a letter or digit. */
  predicate Named(t: Text) {
    && 3 <= |t| <= 128
    && (48 <= t[0] <= 57 || 65 <= t[0] <= 90 || 97 <= t[0] <= 122)
    && forall i :: 1 <= i < |t| ==>
         48 <= t[i] <= 57 || 65 <= t[i] <= 90 || 97 <= t[i] <= 122 || t[i] in {46, 95, 58, 45}
  }

  lemma NamedIff(t: Text)
    ensures ValidIdentity(t) <==> Named(t)
  {
    if |t| > 0 {
      assert forall i :: 1 <= i < |t| ==> t[i] == t[1..][i - 1];
      assert forall i :: 1 <= i < |t| ==> t[i] in t[1..];
    }
  }

  /**
   A creation is let in exactly for well-formed names that no record of another kind bears. Its
   body answers the record's intent if there is one, changing nothing; else it makes a record
   with nothing uploaded, under a reference never used before, whose intent lasts as long as the
   policy says, or fails because that end cannot be written out.
   */
  lemma CreationIsExact(clock: int, policy: Policy, actions: seq<Action>, c: CreateCommand)
    ensures var s := Run(Init(clock), policy, actions);
            var key := ToRecordKey(c.owner, c.evidenceId);
            var (t, answer) := CreateBody(s.store, policy, c, s.clock);
            var end := s.clock + 1_000 * policy.uploadIntentTtlSeconds;
            && (CreateCheck(s.store, c).None? <==>
                  && Named(c.owner) && Named(c.evidenceId)
                  && (key in s.store.records ==> s.store.records[key].classification == c.classification))
            && (key in s.store.records ==> t == s.store && answer == Ok(s.store.records[key].intent))
            && (key !in s.store.records && !(-MAX_INSTANT <= end <= MAX_INSTANT) ==>
                  answer == Err(ValidationFailed) && t == s.store.(sequence := t.sequence))
            && (key !in s.store.records && -MAX_INSTANT <= end <= MAX_INSTANT ==>
                  && answer.Ok? && OnlyRecord(s.store, t, key) && t.objects == s.store.objects
                  && answer.value.uploadReference !in s.store.uploadReferences
                  && answer.value.uploadReference !in s.issued
                  && answer.value == Intent(c.evidenceId, answer.value.uploadReference, answer.value.uploadReference,
                                            policy.allowedMediaTypes, policy.maximumByteLength, end)
                  && t.records[key]
                     == Record(c.evidenceId, c.owner, c.classification, answer.value, None, None, None, None)
                  && t.uploadReferences == s.store.uploadReferences[answer.value.uploadReference := key]
                  && t.quarantineReferences == t.uploadReferences)
  {
    InitInv(clock, policy);
    InvRun(Init(clock), policy, actions);
    var s := Run(Init(clock), policy, actions);
    NamedIff(c.owner);
    NamedIff(c.evidenceId);
    var reference := s.store.sequence + 1;
    assert reference in s.store.uploadReferences ==> ReferenceInv(s.store, reference);
    assert HeldInv(s, reference);
  }

  // ---------------------------------------------------------------- quarantine

  /**
   Content is taken exactly once, for a reference that was given out, before its intent expires;
   it is then the record's upload, and nothing else changes. The three refusals say which of
   these failed, and change nothing.
   */
  lemma UploadIsExact(clock: int, policy: Policy, actions: seq<Action>, reference: nat, content: Bytes)
    ensures var s := Run(Init(clock), policy, actions);
            var (t, refusal) := Upload(s.store, reference, content, s.clock);
            && (refusal == Some(NotFound) <==> reference !in s.store.uploadReferences)
            && (refusal.Some? ==> t == s.store)
            && (reference in s.store.uploadReferences ==>
                  var key := s.store.uploadReferences[reference];
                  && key in s.store.records
                  && var r := s.store.records[key];
                     && (refusal == Some(UploadImmutable) <==> r.upload.Some? || r.accepted.Some?)
                     && (refusal == Some(UploadExpired) <==>
                           r.upload.None? && r.accepted.None? && s.clock >= r.intent.expiresAt)
                     && (refusal.None? <==> r.upload.None? && r.accepted.None? && s.clock < r.intent.expiresAt)
                     && (refusal.None? ==>
                           && OnlyRecord(s.store, t, key) && SameReferences(s.store, t)
                           && t.objects == s.store.objects && t.sequence == s.store.sequence
                           && t.records[key] == r.(upload := Some(content))))
  {
    InitInv(clock, policy);
    InvRun(Init(clock), policy, actions);
    var s := Run(Init(clock), policy, actions);
    if reference in s.store.uploadReferences {
      assert ReferenceInv(s.store, reference);
      assert LifeInv(policy, s.writes, s.store.records[s.store.uploadReferences[reference]], s.clock);
    }
  }

  /** A scan that says something consistent, under a well-formed reference of its own. */
  predicate ScanFits(scan: Scan) {
    && Named(scan.scanReference)
    && (if scan.verdict == Unavailable then scan.scanned.None?
        else scan.scanned.Some? && scan.scanned.value != NoDigest)
  }

  /** A scan is recorded exactly for content in quarantine, if it fits, and nothing else changes. */
  lemma ScanIsExact(clock: int, policy: Policy, actions: seq<Action>, reference: nat, scan: Scan)
    ensures var s := Run(Init(clock), policy, actions);
            var (t, refusal) := RecordScan(s.store, reference, scan);
            var uploaded := reference in s.store.uploadReferences
              && s.store.uploadReferences[reference] in s.store.records
              && s.store.records[s.store.uploadReferences[reference]].upload.Some?;
            && (refusal == Some(NotFound) <==> !uploaded)
            && (refusal == Some(ValidationFailed) <==> uploaded && !ScanFits(scan))
            && (refusal.None? <==> uploaded && ScanFits(scan))
            && (refusal.Some? ==> t == s.store)
            && (refusal.None? ==>
                  var key := s.store.uploadReferences[reference];
                  && OnlyRecord(s.store, t, key) && SameReferences(s.store, t)
                  && t.objects == s.store.objects && t.sequence == s.store.sequence
                  && t.records[key] == s.store.records[key].(scan := Some(scan)))
  {
    InitInv(clock, policy);
    InvRun(Init(clock), policy, actions);
    NamedIff(scan.scanReference);
  }

  // ---------------------------------------------------------------- acceptance

  /** The query names a record, by its owner, its identifier and its quarantine reference. */
  predicate Names(s: Store, q: Query) {
    && Named(q.owner) && Named(q.evidenceId) && ToRecordKey(q.owner, q.evidenceId) in s.records
    && s.records[ToRecordKey(q.owner, q.evidenceId)].intent.quarantineReference == q.quarantineReference
  }

  lemma NamesIff(s: Store, q: Query)
    ensures FindForQuery(s, q).Ok? <==> Names(s, q)
    ensures Names(s, q) ==> FindForQuery(s, q).value == s.records[ToRecordKey(q.owner, q.evidenceId)]
  {
    NamedIff(q.owner);
    NamedIff(q.evidenceId);
  }

  predicate Passed(policy: Policy, r: Record) {
    && Acceptable(policy, r) && Scanned(r) && r.scan.value.verdict == Clean
    && r.scan.value.scanned == Some(DigestOf(r.upload.value))
  }

  /** An acceptance is let in exactly for named evidence that is accepted and kept, or that has passed. */
  lemma AcceptanceIsLetIn(s: Store, policy: Policy, q: Query, now: int)
    requires policy.maximumByteLength >= 1
    ensures AcceptCheck(s, policy, q, now).None? <==>
              && Names(s, q)
              && var r := s.records[ToRecordKey(q.owner, q.evidenceId)];
                 (r.accepted.Some? && r.deleted.None?) || Passed(policy, r)
  {
    NamesIff(s, q);
    if Names(s, q) {
      StatusIff(policy, s.records[ToRecordKey(q.owner, q.evidenceId)], now);
    }
  }

  /** What the body of an acceptance leaves and answers for named evidence, given the next reference. */
  ghost predicate AcceptedAs(
      s: Store, t: Store, policy: Policy, key: Text, answer: Result<Accepted, Error>, now: int, reference: nat)
    requires key in s.records
  {
    var r, end := s.records[key], now + 1_000 * policy.acceptedRetentionSeconds;
    if r.accepted.Some? then t == s && answer == Ok(r.accepted.value)
    else if !Passed(policy, r) then t == s && answer == Err(NotVerified)
    else if !(Writable(now) && Writable(end)) then
      t == s.(sequence := t.sequence) && answer == Err(ValidationFailed)
    else
      && answer.Ok? && answer.value.objectReference == reference
      && answer.value.owner == r.owner && answer.value.evidenceId == r.evidenceId
      && answer.value.classification == r.classification
      && answer.value.acceptedAt == now && answer.value.retentionExpiresAt == end
      && OnlyRecord(s, t, key) && SameReferences(s, t)
      && t.records[key] == r.(accepted := Some(answer.value), upload := None)
      && t.objects == s.objects[reference := r.upload.value]
  }

  lemma AcceptBodyIs(s: Store, policy: Policy, q: Query, now: int)
    requires policy.maximumByteLength >= 1
    ensures var (t, answer) := AcceptBody(s, policy, q, now);
            if Names(s, q)
            then AcceptedAs(s, t, policy, ToRecordKey(q.owner, q.evidenceId), answer, now, s.sequence + 1)
            else t == s && answer.Err?
  {
    NamesIff(s, q);
    if Names(s, q) {
      StatusIff(policy, s.records[ToRecordKey(q.owner, q.evidenceId)], now);
    }
  }

  /**
   In every reachable state the body of an acceptance answers an earlier acceptance again; else,
   for evidence that has passed and times that can be written out, it moves the content under a
   reference never used before and keeps it as long as the policy says; nothing else changes.
   */
  lemma AcceptanceIsExact(clock: int, policy: Policy, actions: seq<Action>, q: Query) returns (reference: nat)
    requires policy.maximumByteLength >= 1
    ensures var s := Run(Init(clock), policy, actions);
            var (t, answer) := AcceptBody(s.store, policy, q, s.clock);
            && reference !in s.issued && reference !in s.store.objects && reference !in s.store.uploadReferences
            && if Names(s.store, q)
               then AcceptedAs(s.store, t, policy, ToRecordKey(q.owner, q.evidenceId), answer, s.clock, reference)
               else t == s.store && answer.Err?
  {
    InitInv(clock, policy);
    InvRun(Init(clock), policy, actions);
    var s := Run(Init(clock), policy, actions);
    AcceptBodyIs(s.store, policy, q, s.clock);
    reference := s.store.sequence + 1;
    NextIsUnused(s, policy);
  }

  lemma NextIsUnused(s: State, policy: Policy)
    requires Inv(s, policy)
    ensures var reference := s.store.sequence + 1;
            reference !in s.issued && reference !in s.store.objects && reference !in s.store.uploadReferences
  {
    var reference := s.store.sequence + 1;
    assert HeldInv(s, reference);
    assert reference in s.store.uploadReferences ==> ReferenceInv(s.store, reference);
  }

  // ---------------------------------------------------------------- deletion

  /**
   A deletion is let in exactly for named evidence that was deleted under this reference, or
   that is kept under it and whose retention is over.
   */
  lemma DeletionIsLetIn(clock: int, policy: Policy, actions: seq<Action>, c: DeleteCommand)
    ensures var s := Run(Init(clock), policy, actions);
            var key := ToRecordKey(c.owner, c.evidenceId);
            DeleteCheck(s.store, c, s.clock).None? <==>
              && Named(c.owner) && Named(c.evidenceId) && key in s.store.records
              && var r := s.store.records[key];
                 && r.accepted.Some? && r.accepted.value.objectReference == c.objectReference
                 && (r.deleted.Some? || s.clock >= r.accepted.value.retentionExpiresAt)
  {
    InitInv(clock, policy);
    InvRun(Init(clock), policy, actions);
    var s := Run(Init(clock), policy, actions);
    NamedIff(c.owner);
    NamedIff(c.evidenceId);
    var key := ToRecordKey(c.owner, c.evidenceId);
    if key in s.store.records {
      assert LifeInv(policy, s.writes, s.store.records[key], s.clock);
    }
  }

  /**
   A deletion that was let in, run at any time that can be written out, leaves its record
   deleted under its reference: at the time of the first deletion if there was one, which is
   answered again, and now otherwise. Its object is gone and never comes back; every other
   object and record is as before.
   */
  lemma DeletionIsExact(clock: int, policy: Policy, actions: seq<Action>, more: seq<Action>, c: DeleteCommand)
    requires c in Run(Init(clock), policy, actions).deletes
    ensures var s := Run(Init(clock), policy, actions);
            var t := Apply(s, policy, RunDelete(c));
            var key := ToRecordKey(c.owner, c.evidenceId);
            var answer := DeleteBody(s.store, c, s.clock).1;
            && key in s.store.records && OnlyRecord(s.store, t.store, key) && SameReferences(s.store, t.store)
            && var r := s.store.records[key];
               && (r.deleted.Some? ==> t == s && answer == Ok(r.deleted.value.at))
               && (r.deleted.None? && !Writable(s.clock) ==> t == s && answer == Err(ValidationFailed))
               && (r.deleted.None? && Writable(s.clock) ==>
                     && answer == Ok(s.clock)
                     && t.store.records[key] == r.(deleted := Some(Deletion(s.clock, c.objectReference)))
                     && c.objectReference in s.store.objects
                     && t.store.objects == s.store.objects - {c.objectReference})
               && (r.deleted.Some? || Writable(s.clock) ==>
                     && c.objectReference !in t.store.objects
                     && c.objectReference !in Run(t, policy, more).store.objects)
  {
    InitInv(clock, policy);
    InvRun(Init(clock), policy, actions);
    var s := Run(Init(clock), policy, actions);
    var key := ToRecordKey(c.owner, c.evidenceId);
    assert DeleteInv(s, c) && ObjectInv(s, key);
    assert LifeInv(policy, s.writes, s.store.records[key], s.clock);
    if s.store.records[key].deleted.Some? || Writable(s.clock) {
      GoneForGood(s, policy, c, more);
    }
  }

  lemma GoneForGood(s: State, policy: Policy, c: DeleteCommand, more: seq<Action>)
    requires Inv(s, policy) && c in s.deletes
    requires ToRecordKey(c.owner, c.evidenceId) in s.store.records
    requires s.store.records[ToRecordKey(c.owner, c.evidenceId)].deleted.Some? || Writable(s.clock)
    ensures c.objectReference !in Run(Apply(s, policy, RunDelete(c)), policy, more).store.objects
  {
    InvStep(s, policy, RunDelete(c));
    RanDelete(s, policy, c);
    StaysGone(Apply(s, policy, RunDelete(c)), policy, ToRecordKey(c.owner, c.evidenceId), c.objectReference, more);
  }

  /** The record was accepted under this reference, and deleted. */
  predicate DeletedUnder(s: Store, key: Text, reference: nat) {
    && key in s.records && s.records[key].deleted.Some? && s.records[key].accepted.Some?
    && s.records[key].accepted.value.objectReference == reference
  }

  lemma RanDelete(s: State, policy: Policy, c: DeleteCommand)
    requires DeletesInv(s) && c in s.deletes && ToRecordKey(c.owner, c.evidenceId) in s.store.records
    requires s.store.records[ToRecordKey(c.owner, c.evidenceId)].deleted.Some? || Writable(s.clock)
    ensures DeletedUnder(Apply(s, policy, RunDelete(c)).store, ToRecordKey(c.owner, c.evidenceId), c.objectReference)
  {
    assert DeleteInv(s, c);
  }

  lemma StaysGone(t: State, policy: Policy, key: Text, reference: nat, more: seq<Action>)
    requires Inv(t, policy) && DeletedUnder(t.store, key, reference)
    ensures reference !in Run(t, policy, more).store.objects
  {
    InvRun(t, policy, more);
    RunLeaves(t, policy, more);
    var later := Run(t, policy, more);
    assert Stays(t.store.records[key], later.store.records[key]);
    assert ObjectInv(later, key);
  }
}
