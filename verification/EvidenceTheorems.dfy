/** What the evidence lifecycle guarantees after any run from an empty store. */
module EvidenceTheorems {
  import opened Wrappers
  import opened Text
  import opened Evidence
  import opened EvidenceRuns

  // ---------------------------------------------------------------- the private store

  /**
   The private store holds exactly the objects of accepted, undeleted evidence; each object is
   the content whose digest its record carries, and belongs to that record alone.
   */
  lemma PrivateStoreIsExact(clock: int, policy: Policy, actions: seq<Action>, o: nat)
    ensures var s := Run(Init(clock), policy, actions);
            && (o in s.store.objects <==> exists key :: key in s.store.records && HasObject(s.store.records[key], o))
            && forall key :: key in s.store.records && HasObject(s.store.records[key], o) ==>
                 && s.store.records[key].accepted.value.sha256 == DigestOf(s.store.objects[o])
                 && forall other :: other in s.store.records && HasObject(s.store.records[other], o) ==> other == key
  {
    InitInv(clock, policy);
    InvRun(Init(clock), policy, actions);
    var s := Run(Init(clock), policy, actions);
    assert HeldInv(s, o);
    forall key | key in s.store.records && HasObject(s.store.records[key], o)
      ensures ObjectInv(s, key) && o in s.store.objects && s.issued[o] == key
    {
      assert ObjectInv(s, key);
    }
  }

  /**
   Accepted evidence is the one content ever written for its intent, written before the
   intent expired, within the size limit and of an allowed type; what was recorded is its
   digest, length and type; and its scan found those very bytes clean.
   */
  lemma AcceptedIsTheUpload(clock: int, policy: Policy, actions: seq<Action>, key: Text)
    requires key in Run(Init(clock), policy, actions).store.records
    requires Run(Init(clock), policy, actions).store.records[key].accepted.Some?
    ensures var s := Run(Init(clock), policy, actions);
            var r := s.store.records[key];
            var a := r.accepted.value;
            var writes := WritesTo(s.writes, r.intent.uploadReference);
            && |writes| == 1 && writes[0].at < r.intent.expiresAt
            && a.sha256 == DigestOf(writes[0].content)
            && 1 <= a.byteLength == |writes[0].content| <= policy.maximumByteLength
            && DetectMediaType(writes[0].content) == Some(a.mediaType) && a.mediaType in policy.allowedMediaTypes
            && r.scan == Some(Scan(Clean, a.scanReference, Some(DigestOf(writes[0].content))))
            && (r.deleted.None? ==>
                  a.objectReference in s.store.objects && s.store.objects[a.objectReference] == writes[0].content)
  {
    InitInv(clock, policy);
    InvRun(Init(clock), policy, actions);
    var s := Run(Init(clock), policy, actions);
    assert LifeInv(policy, s.writes, s.store.records[key], s.clock) && ObjectInv(s, key);
  }

  /** Until the retention of accepted evidence has expired its object is there and it is not deleted. */
  lemma RetentionHolds(clock: int, policy: Policy, actions: seq<Action>, key: Text)
    requires key in Run(Init(clock), policy, actions).store.records
    requires Run(Init(clock), policy, actions).store.records[key].accepted.Some?
    ensures var s := Run(Init(clock), policy, actions);
            var r := s.store.records[key];
            && r.accepted.value.retentionExpiresAt
               == r.accepted.value.acceptedAt + policy.acceptedRetentionSeconds * 1_000
            && (s.clock < r.accepted.value.retentionExpiresAt ==>
                  r.deleted.None? && r.accepted.value.objectReference in s.store.objects)
            && (r.deleted.Some? ==>
                  && r.accepted.value.retentionExpiresAt <= r.deleted.value.at <= s.clock
                  && r.accepted.value.objectReference !in s.store.objects)
  {
    InitInv(clock, policy);
    InvRun(Init(clock), policy, actions);
    var s := Run(Init(clock), policy, actions);
    assert LifeInv(policy, s.writes, s.store.records[key], s.clock) && ObjectInv(s, key);
  }

  // ---------------------------------------------------------------- what stays

  /** What no later step changes about a record. */
  predicate Stays(r: Record, later: Record) {
    && later.evidenceId == r.evidenceId && later.owner == r.owner && later.classification == r.classification
    && later.intent == r.intent
    && (r.upload.Some? ==>
          if later.upload.Some? then later.upload == r.upload
          else later.accepted.Some? && later.accepted.value.sha256 == DigestOf(r.upload.value))
    && (r.accepted.Some? ==> later.accepted == r.accepted && later.scan == r.scan && later.upload == r.upload)
    && (r.deleted.Some? ==> later.deleted == r.deleted)
  }

  /** Both were accepted, under one object reference. */
  predicate HadObject(r: Record, other: Record) {
    r.accepted.Some? && other.accepted.Some? && r.accepted.value.objectReference == other.accepted.value.objectReference
  }

  /** Records and references are never dropped or given away. */
  ghost predicate Keeps(s: State, after: State) {
    && s.clock <= after.clock
    && (forall key :: key in s.store.records ==>
          key in after.store.records && Stays(s.store.records[key], after.store.records[key]))
    && (forall o :: o in s.issued ==> o in after.issued && after.issued[o] == s.issued[o])
    && (forall u :: u in s.store.uploadReferences ==>
          u in after.store.uploadReferences && after.store.uploadReferences[u] == s.store.uploadReferences[u])
  }

  lemma StoreLeaves(s: State, after: State, key: Text, r: Record)
    requires ObjectsInv(s) && Stores(s, after, key, r)
    requires Stays(s.store.records[key], r)
    ensures Keeps(s, after)
  {
    assert HeldInv(s, s.store.sequence + 1);
  }

  lemma AcceptLeaves(s: State, policy: Policy, q: Query)
    requires LivesInv(s, policy) && ObjectsInv(s)
    ensures Keeps(s, ApplyAccept(s, policy, q))
  {
    if Takes(s, policy, q) {
      AcceptStores(s, policy, q);
      var key := ToRecordKey(q.owner, q.evidenceId);
      StoreLeaves(s, ApplyAccept(s, policy, q), key, ApplyAccept(s, policy, q).store.records[key]);
    }
  }

  lemma UploadLeaves(s: State, reference: nat, content: Bytes)
    ensures Keeps(s, ApplyUpload(s, reference, content))
  {
  }

  lemma ScanLeaves(s: State, policy: Policy, reference: nat, scan: Scan)
    requires LivesInv(s, policy)
    ensures Keeps(s, ApplyScan(s, reference, scan))
  {
    if RecordScan(s.store, reference, scan).1.None? {
      assert LifeInv(policy, s.writes, s.store.records[s.store.quarantineReferences[reference]], s.clock);
    }
  }

  lemma CreateLeaves(s: State, policy: Policy, c: CreateCommand)
    requires NamesInv(s.store)
    ensures Keeps(s, ApplyCreate(s, policy, c))
  {
    var reference := s.store.sequence + 1;
    assert reference in s.store.uploadReferences ==> ReferenceInv(s.store, reference);
  }

  lemma DeleteLeaves(s: State, c: DeleteCommand)
    ensures Keeps(s, ApplyDelete(s, c))
  {
  }

  lemma SameStoreLeaves(s: State, after: State)
    requires after.store == s.store && after.issued == s.issued && s.clock <= after.clock
    ensures Keeps(s, after)
  {
  }

  lemma StepLeaves(s: State, policy: Policy, a: Action)
    requires Inv(s, policy)
    ensures Keeps(s, Apply(s, policy, a))
  {
    if a.RunCreate? && a.create in s.creates {
      CreateLeaves(s, policy, a.create);
    } else if a.UploadContent? {
      UploadLeaves(s, a.reference, a.content);
    } else if a.ScanContent? {
      ScanLeaves(s, policy, a.reference, a.scan);
    } else if a.RunAccept? && a.query in s.accepts {
      AcceptLeaves(s, policy, a.query);
    } else if a.RunDelete? && a.delete in s.deletes {
      DeleteLeaves(s, a.delete);
    } else {
      SameStoreLeaves(s, Apply(s, policy, a));
    }
  }

  lemma KeepsTransitive(a: State, b: State, c: State)
    requires Keeps(a, b) && Keeps(b, c)
    ensures Keeps(a, c)
  {
    forall key | key in a.store.records
      ensures key in c.store.records && Stays(a.store.records[key], c.store.records[key])
    {
      assert Stays(a.store.records[key], b.store.records[key]);
      assert Stays(b.store.records[key], c.store.records[key]);
    }
  }

  lemma {:induction false} RunLeaves(s: State, policy: Policy, actions: seq<Action>)
    requires Inv(s, policy)
    ensures Keeps(s, Run(s, policy, actions))
    decreases |actions|
  {
    if |actions| > 0 {
      var next := Apply(s, policy, actions[0]);
      StepLeaves(s, policy, actions[0]);
      InvStep(s, policy, actions[0]);
      RunLeaves(next, policy, actions[1..]);
      KeepsTransitive(s, next, Run(next, policy, actions[1..]));
    }
  }

  /**
   Acceptance and deletion are final, and a private object reference, once issued, names the
   same record for ever: deleted evidence never comes back and its reference is never reused.
   */
  lemma DeletedStaysDeleted(clock: int, policy: Policy, actions: seq<Action>, more: seq<Action>, key: Text)
    requires key in Run(Init(clock), policy, actions).store.records
    requires Run(Init(clock), policy, actions).store.records[key].deleted.Some?
    ensures var s := Run(Init(clock), policy, actions);
            var t := Run(s, policy, more);
            var r := s.store.records[key];
            && key in t.store.records && r.accepted.Some?
            && t.store.records[key].accepted == r.accepted && t.store.records[key].deleted == r.deleted
            && r.accepted.value.objectReference !in t.store.objects
            && forall other :: other in t.store.records && HadObject(t.store.records[other], r) ==> other == key
  {
    InitInv(clock, policy);
    InvRun(Init(clock), policy, actions);
    var s := Run(Init(clock), policy, actions);
    InvRun(s, policy, more);
    RunLeaves(s, policy, more);
    var t := Run(s, policy, more);
    assert LifeInv(policy, s.writes, s.store.records[key], s.clock);
    assert Stays(s.store.records[key], t.store.records[key]);
    assert ObjectInv(t, key);
    forall other | other in t.store.records
      ensures ObjectInv(t, other)
    {
    }
  }

  /** References given out before mean the same after any further steps. */
  lemma ReferencesAreNeverReused(clock: int, policy: Policy, actions: seq<Action>, more: seq<Action>, n: nat)
    ensures var s := Run(Init(clock), policy, actions);
            var t := Run(s, policy, more);
            && (n in s.issued ==> n in t.issued && t.issued[n] == s.issued[n] && n !in t.store.uploadReferences)
            && (n in s.store.uploadReferences ==>
                  && n in t.store.uploadReferences && t.store.uploadReferences[n] == s.store.uploadReferences[n]
                  && n !in t.issued)
  {
    InitInv(clock, policy);
    InvRun(Init(clock), policy, actions);
    var s := Run(Init(clock), policy, actions);
    InvRun(s, policy, more);
    RunLeaves(s, policy, more);
    assert HeldInv(Run(s, policy, more), n);
  }

  // ---------------------------------------------------------------- which rejections are final

  predicate Final(status: Status) {
    status.Rejected? && !status.reason.DigestMismatch? && !status.reason.ScanRejected?
  }

  /** The record is as before, but perhaps for a new scan. */
  predicate Rescanned(s: Store, after: Store, key: Text) {
    && key in s.records && key in after.records
    && after.records[key] == s.records[key].(scan := after.records[key].scan)
  }

  lemma FinalUnlessWritten(policy: Policy, r: Record, later: Record, clock: int, at: int)
    requires Final(StatusOf(policy, r, clock)) && clock <= at && later == r.(scan := later.scan)
    ensures StatusOf(policy, later, at) == StatusOf(policy, r, clock)
  {
  }

  lemma FinalUpload(s: State, policy: Policy, reference: nat, content: Bytes, key: Text)
    requires key in s.store.records && Final(StatusOf(policy, s.store.records[key], s.clock))
    ensures Rescanned(s.store, ApplyUpload(s, reference, content).store, key)
  {
  }

  lemma FinalScan(s: State, policy: Policy, reference: nat, scan: Scan, key: Text)
    requires key in s.store.records
    ensures Rescanned(s.store, ApplyScan(s, reference, scan).store, key)
  {
  }

  lemma FinalAccept(s: State, policy: Policy, q: Query, key: Text)
    requires LivesInv(s, policy)
    requires key in s.store.records && Final(StatusOf(policy, s.store.records[key], s.clock))
    ensures Rescanned(s.store, ApplyAccept(s, policy, q).store, key)
  {
    if Takes(s, policy, q) {
      AcceptStores(s, policy, q);
    }
  }

  lemma FinalDelete(s: State, policy: Policy, c: DeleteCommand, key: Text)
    requires DeletesInv(s) && c in s.deletes
    requires key in s.store.records && Final(StatusOf(policy, s.store.records[key], s.clock))
    ensures Rescanned(s.store, ApplyDelete(s, c).store, key)
  {
    assert DeleteInv(s, c);
  }

  lemma FinalStep(s: State, policy: Policy, a: Action, key: Text)
    requires Inv(s, policy) && key in s.store.records
    requires Final(StatusOf(policy, s.store.records[key], s.clock))
    ensures Rescanned(s.store, Apply(s, policy, a).store, key)
  {
    match a
    case UploadContent(reference, content) => FinalUpload(s, policy, reference, content, key);
    case ScanContent(reference, scan) => FinalScan(s, policy, reference, scan, key);
    case RunAccept(q) => if q in s.accepts { FinalAccept(s, policy, q, key); }
    case RunDelete(c) => if c in s.deletes { FinalDelete(s, policy, c, key); }
    case _ =>
  }

  /** The record reads as rejected for this reason and is not accepted. */
  predicate RejectedAs(s: State, policy: Policy, key: Text, reason: Rejection) {
    && key in s.store.records && s.store.records[key].accepted.None?
    && StatusOf(policy, s.store.records[key], s.clock) == Rejected(reason)
  }

  lemma RejectionStep(s: State, policy: Policy, a: Action, key: Text, reason: Rejection)
    requires Inv(s, policy) && RejectedAs(s, policy, key, reason) && Final(Rejected(reason))
    ensures RejectedAs(Apply(s, policy, a), policy, key, reason)
  {
    var next := Apply(s, policy, a);
    FinalStep(s, policy, a, key);
    FinalUnlessWritten(policy, s.store.records[key], next.store.records[key], s.clock, next.clock);
  }

  /**
   Evidence whose intent expired unused, or whose content is empty, too large or of a type not
   allowed, reads as rejected for that reason for ever and is never accepted.
   */
  lemma {:induction false} ContentRejectionIsFinal(
      s: State, policy: Policy, actions: seq<Action>, key: Text, reason: Rejection)
    requires Inv(s, policy) && RejectedAs(s, policy, key, reason) && Final(Rejected(reason))
    ensures RejectedAs(Run(s, policy, actions), policy, key, reason)
    decreases |actions|
  {
    if |actions| > 0 {
      RejectionStep(s, policy, actions[0], key, reason);
      InvStep(s, policy, actions[0]);
      ContentRejectionIsFinal(Apply(s, policy, actions[0]), policy, actions[1..], key, reason);
    }
  }

  /**
   A rejection by the scan is not: whatever was recorded before, one clean scan of the bytes in
   quarantine makes the evidence verified, so exactly the rejections above are final.
   */
  lemma CleanRescanVerifies(s: State, policy: Policy, key: Text, scanReference: Text)
    requires Inv(s, policy) && key in s.store.records && ValidIdentity(scanReference)
    requires var status := StatusOf(policy, s.store.records[key], s.clock);
             status.Rejected? && !Final(status)
    ensures var r := s.store.records[key];
            r.upload.Some?
            && var t := Apply(s, policy, ScanContent(r.intent.quarantineReference,
                                                     Scan(Clean, scanReference, Some(DigestOf(r.upload.value)))));
               key in t.store.records && StatusOf(policy, t.store.records[key], t.clock) == Verified
  {
    assert NameInv(s.store, key);
  }
}
