/**
 Evidence over all runs. A call that creates, accepts or deletes makes its check when it
 arrives; its body runs at some later step, after anything else. Here a body may run at any
 time after a check that passed, any number of times, which includes everything the
 idempotency protocol lets happen. The clock never goes back. `writes` and `issued` are not
 part of the program: they record every successful write into quarantine, and for every
 private object reference ever given out the record it was given to.
 */
module EvidenceRuns {
  import opened Wrappers
  import opened Text
  import opened Evidence

  datatype Write = Write(reference: nat, content: Bytes, at: int)

  datatype State = State(
    store: Store, clock: int, creates: set<CreateCommand>, accepts: set<Query>, deletes: set<DeleteCommand>,
    writes: seq<Write>, issued: map<nat, Text>)

  datatype Action =
    | Tick(elapsed: nat)
    | ArriveCreate(create: CreateCommand)
    | RunCreate(create: CreateCommand)
    | UploadContent(reference: nat, content: Bytes)
    | ScanContent(reference: nat, scan: Scan)
    | ArriveAccept(query: Query)
    | RunAccept(query: Query)
    | ArriveDelete(delete: DeleteCommand)
    | RunDelete(delete: DeleteCommand)

  function Init(clock: int): State {
    State(Store(map[], map[], map[], map[], 0), clock, {}, {}, {}, [], map[])
  }

  function ApplyUpload(s: State, reference: nat, content: Bytes): State {
    var (store, refusal) := Upload(s.store, reference, content, s.clock);
    if refusal.Some? then s else s.(store := store, writes := s.writes + [Write(reference, content, s.clock)])
  }

  /** The body would take the record from verified to accepted. */
  predicate Takes(s: State, policy: Policy, q: Query) {
    && FindForQuery(s.store, q).Ok? && FindForQuery(s.store, q).value.accepted.None?
    && AcceptBody(s.store, policy, q, s.clock).1.Ok?
  }

  function ApplyAccept(s: State, policy: Policy, q: Query): State {
    var store := AcceptBody(s.store, policy, q, s.clock).0;
    s.(store := store,
       issued := if Takes(s, policy, q) then s.issued[store.sequence := ToRecordKey(q.owner, q.evidenceId)] else s.issued)
  }

  function ApplyCreate(s: State, policy: Policy, c: CreateCommand): State {
    s.(store := CreateBody(s.store, policy, c, s.clock).0)
  }

  function ApplyScan(s: State, reference: nat, scan: Scan): State {
    s.(store := RecordScan(s.store, reference, scan).0)
  }

  function ApplyDelete(s: State, c: DeleteCommand): State {
    s.(store := DeleteBody(s.store, c, s.clock).0)
  }

  function Apply(s: State, policy: Policy, a: Action): State {
    match a
    case Tick(elapsed) => s.(clock := s.clock + elapsed)
    case ArriveCreate(c) => if CreateCheck(s.store, c).Some? then s else s.(creates := s.creates + {c})
    case RunCreate(c) => if c !in s.creates then s else ApplyCreate(s, policy, c)
    case UploadContent(reference, content) => ApplyUpload(s, reference, content)
    case ScanContent(reference, scan) => ApplyScan(s, reference, scan)
    case ArriveAccept(q) => if AcceptCheck(s.store, policy, q, s.clock).Some? then s else s.(accepts := s.accepts + {q})
    case RunAccept(q) => if q !in s.accepts then s else ApplyAccept(s, policy, q)
    case ArriveDelete(c) => if DeleteCheck(s.store, c, s.clock).Some? then s else s.(deletes := s.deletes + {c})
    case RunDelete(c) => if c !in s.deletes then s else ApplyDelete(s, c)
  }

  function Run(s: State, policy: Policy, actions: seq<Action>): State
    decreases |actions|
  {
    if |actions| == 0 then s else Run(Apply(s, policy, actions[0]), policy, actions[1..])
  }

  /** The writes made under one upload reference. */
  function WritesTo(writes: seq<Write>, reference: nat): seq<Write> {
    if |writes| == 0 then []
    else
      var last := writes[|writes| - 1];
      WritesTo(writes[..|writes| - 1], reference) + (if last.reference == reference then [last] else [])
  }

  lemma OneMoreWrite(writes: seq<Write>, w: Write, reference: nat)
    ensures WritesTo(writes + [w], reference)
         == WritesTo(writes, reference) + if w.reference == reference then [w] else []
  {
    assert (writes + [w])[..|writes|] == writes;
  }

  // ---------------------------------------------------------------- invariant

  /** The one write of an intent is this content, and was made before the intent expired. */
  predicate WrittenOnce(writes: seq<Write>, intent: Intent, content: Bytes) {
    var to := WritesTo(writes, intent.uploadReference);
    |to| == 1 && to[0].content == content && to[0].at < intent.expiresAt
  }

  /** What acceptance promises about its record. */
  predicate AcceptedInv(policy: Policy, r: Record, a: Accepted, clock: int) {
    && a.evidenceId == r.evidenceId && a.owner == r.owner && a.classification == r.classification
    && a.sha256.DigestOf?
    && ContentRejection(policy, a.sha256.content).None?
    && a.byteLength == |a.sha256.content| && Some(a.mediaType) == DetectMediaType(a.sha256.content)
    && r.scan == Some(Scan(Clean, a.scanReference, Some(a.sha256)))
    && a.acceptedAt <= clock && a.retentionExpiresAt == a.acceptedAt + policy.acceptedRetentionSeconds * 1_000
    && (r.deleted.Some? ==>
          && r.deleted.value.objectReference == a.objectReference
          && a.retentionExpiresAt <= r.deleted.value.at <= clock)
  }

  /** Where a record is in its life, and what was written for it. */
  predicate LifeInv(policy: Policy, writes: seq<Write>, r: Record, clock: int) {
    if r.accepted.Some? then
      && r.upload.None?
      && AcceptedInv(policy, r, r.accepted.value, clock)
      && WrittenOnce(writes, r.intent, r.accepted.value.sha256.content)
    else
      && r.deleted.None?
      && if r.upload.Some? then WrittenOnce(writes, r.intent, r.upload.value)
         else r.scan.None? && WritesTo(writes, r.intent.uploadReference) == []
  }

  predicate NameInv(s: Store, key: Text)
    requires key in s.records
  {
    var intent := s.records[key].intent;
    && intent.quarantineReference == intent.uploadReference
    && intent.uploadReference in s.uploadReferences && s.uploadReferences[intent.uploadReference] == key
  }

  /** The private object of a record: its own, and there exactly from acceptance to deletion. */
  predicate ObjectInv(s: State, key: Text)
    requires key in s.store.records
  {
    var r := s.store.records[key];
    r.accepted.Some? ==>
      var o := r.accepted.value.objectReference;
      && o in s.issued && s.issued[o] == key
      && (o in s.store.objects <==> r.deleted.None?)
      && (o in s.store.objects ==> DigestOf(s.store.objects[o]) == r.accepted.value.sha256)
  }

  predicate HasObject(r: Record, o: nat) {
    r.accepted.Some? && r.deleted.None? && r.accepted.value.objectReference == o
  }

  /** A reference names the intent it was issued for. */
  predicate ReferenceInv(s: Store, u: nat)
    requires u in s.uploadReferences
  {
    u <= s.sequence && s.uploadReferences[u] in s.records
    && s.records[s.uploadReferences[u]].intent.uploadReference == u
  }

  predicate HeldInv(s: State, o: nat) {
    && (o in s.issued ==> o <= s.store.sequence && o !in s.store.uploadReferences)
    && (o in s.store.objects ==>
          o in s.issued && s.issued[o] in s.store.records && HasObject(s.store.records[s.issued[o]], o))
  }

  predicate DeleteInv(s: State, c: DeleteCommand) {
    var key := ToRecordKey(c.owner, c.evidenceId);
    && key in s.store.records && s.store.records[key].accepted.Some?
    && s.store.records[key].accepted.value.objectReference == c.objectReference
    && s.store.records[key].accepted.value.retentionExpiresAt <= s.clock
  }

  ghost predicate LivesInv(s: State, policy: Policy) {
    forall key :: key in s.store.records ==> LifeInv(policy, s.writes, s.store.records[key], s.clock)
  }

  ghost predicate NamesInv(s: Store) {
    && s.quarantineReferences == s.uploadReferences
    && (forall key :: key in s.records ==> NameInv(s, key))
    && (forall u :: u in s.uploadReferences ==> ReferenceInv(s, u))
  }

  ghost predicate ObjectsInv(s: State) {
    && (forall key :: key in s.store.records ==> ObjectInv(s, key))
    && (forall o :: HeldInv(s, o))
  }

  ghost predicate WritesInv(s: State) {
    forall w <- s.writes :: w.reference in s.store.uploadReferences && w.at <= s.clock
  }

  /** A deletion waits only for evidence whose retention has expired. */
  ghost predicate DeletesInv(s: State) {
    forall c :: c in s.deletes ==> DeleteInv(s, c)
  }

  ghost predicate Inv(s: State, policy: Policy) {
    LivesInv(s, policy) && NamesInv(s.store) && ObjectsInv(s) && WritesInv(s) && DeletesInv(s)
  }

  // ---------------------------------------------------------------- creation

  lemma NothingWritten(s: State, reference: nat)
    requires WritesInv(s) && reference !in s.store.uploadReferences
    ensures WritesTo(s.writes, reference) == []
  {
    NoWriteTo(s.writes, reference);
  }

  lemma {:induction false} NoWriteTo(writes: seq<Write>, reference: nat)
    requires forall w <- writes :: w.reference != reference
    ensures WritesTo(writes, reference) == []
  {
    if |writes| > 0 {
      NoWriteTo(writes[..|writes| - 1], reference);
    }
  }

  /** A new record under the next reference. */
  ghost predicate AddsRecord(s: State, after: State, key: Text, r: Record) {
    var reference := s.store.sequence + 1;
    && key !in s.store.records
    && r.upload.None? && r.scan.None? && r.accepted.None? && r.deleted.None?
    && r.intent.uploadReference == reference && r.intent.quarantineReference == reference
    && after == s.(store := Store(s.store.records[key := r], s.store.uploadReferences[reference := key],
                                  s.store.quarantineReferences[reference := key], s.store.objects, reference))
  }

  lemma RecordKeepsLives(s: State, after: State, policy: Policy, key: Text, r: Record)
    requires Inv(s, policy) && AddsRecord(s, after, key, r)
    ensures LivesInv(after, policy) && WritesInv(after)
  {
    var reference := s.store.sequence + 1;
    assert reference in s.store.uploadReferences ==> ReferenceInv(s.store, reference);
    NothingWritten(s, reference);
  }

  lemma RecordKeepsNames(s: State, after: State, policy: Policy, key: Text, r: Record)
    requires Inv(s, policy) && AddsRecord(s, after, key, r)
    ensures NamesInv(after.store)
  {
    forall k | k in after.store.records
      ensures NameInv(after.store, k)
    {
      if k != key {
        assert NameInv(s.store, k) && ReferenceInv(s.store, s.store.records[k].intent.uploadReference);
      }
    }
    forall u | u in after.store.uploadReferences
      ensures ReferenceInv(after.store, u)
    {
      if u != s.store.sequence + 1 {
        assert ReferenceInv(s.store, u);
      }
    }
  }

  lemma RecordKeepsObjects(s: State, after: State, policy: Policy, key: Text, r: Record)
    requires Inv(s, policy) && AddsRecord(s, after, key, r)
    ensures ObjectsInv(after) && DeletesInv(after)
  {
    forall k | k in after.store.records
      ensures ObjectInv(after, k)
    {
      assert k != key ==> ObjectInv(s, k);
    }
    forall o: nat
      ensures HeldInv(after, o)
    {
      assert HeldInv(s, o);
    }
    forall c | c in after.deletes
      ensures DeleteInv(after, c)
    {
      assert DeleteInv(s, c);
    }
  }

  lemma CreateKeeps(s: State, policy: Policy, c: CreateCommand)
    requires Inv(s, policy)
    ensures Inv(ApplyCreate(s, policy, c), policy)
  {
    var after := ApplyCreate(s, policy, c);
    var key := ToRecordKey(c.owner, c.evidenceId);
    if key in s.store.records {
    } else if after.store.records == s.store.records {
      SequenceKeeps(s, policy, after.store.sequence);
    } else {
      var r := after.store.records[key];
      RecordKeepsLives(s, after, policy, key, r);
      RecordKeepsNames(s, after, policy, key, r);
      RecordKeepsObjects(s, after, policy, key, r);
    }
  }

  /** A failed body may leave a gap in the references. */
  lemma SequenceKeeps(s: State, policy: Policy, sequence: nat)
    requires Inv(s, policy) && s.store.sequence <= sequence
    ensures Inv(s.(store := s.store.(sequence := sequence)), policy)
  {
    var after := s.(store := s.store.(sequence := sequence));
    forall k | k in after.store.records
      ensures NameInv(after.store, k) && ObjectInv(after, k)
    {
      assert NameInv(s.store, k) && ObjectInv(s, k);
    }
    forall u | u in after.store.uploadReferences
      ensures ReferenceInv(after.store, u)
    {
      assert ReferenceInv(s.store, u);
    }
    forall o: nat
      ensures HeldInv(after, o)
    {
      assert HeldInv(s, o);
    }
    forall c | c in after.deletes
      ensures DeleteInv(after, c)
    {
      assert DeleteInv(s, c);
    }
  }

  // ---------------------------------------------------------------- one record changes

  /** One record changes; its intent, and what it is owed in the private store, do not. */
  ghost predicate Changes(s: State, after: State, key: Text, r: Record) {
    && key in s.store.records && r.intent == s.store.records[key].intent
    && after.store.records == s.store.records[key := r]
    && after.store.uploadReferences == s.store.uploadReferences
    && after.store.quarantineReferences == s.store.quarantineReferences
    && s.store.sequence <= after.store.sequence
    && after.clock == s.clock && after.deletes == s.deletes
  }

  lemma ChangeKeepsNames(s: State, after: State, key: Text, r: Record)
    requires NamesInv(s.store) && Changes(s, after, key, r)
    ensures NamesInv(after.store)
  {
    forall k | k in after.store.records
      ensures NameInv(after.store, k)
    {
      assert NameInv(s.store, k);
    }
    forall u | u in after.store.uploadReferences
      ensures ReferenceInv(after.store, u)
    {
      assert ReferenceInv(s.store, u);
    }
  }

  lemma ChangeKeepsDeletes(s: State, after: State, key: Text, r: Record)
    requires DeletesInv(s) && Changes(s, after, key, r)
    requires s.store.records[key].accepted.Some? ==> r.accepted == s.store.records[key].accepted
    ensures DeletesInv(after)
  {
    forall c | c in after.deletes
      ensures DeleteInv(after, c)
    {
      assert DeleteInv(s, c);
    }
  }

  /** A write or a scan: neither happens to accepted evidence. */
  lemma UnacceptedKeepsObjects(s: State, after: State, key: Text, r: Record)
    requires ObjectsInv(s) && Changes(s, after, key, r)
    requires s.store.records[key].accepted.None? && r.accepted.None?
    requires after.store.objects == s.store.objects && after.issued == s.issued
    requires after.store.sequence == s.store.sequence
    ensures ObjectsInv(after)
  {
    forall k | k in after.store.records
      ensures ObjectInv(after, k)
    {
      assert ObjectInv(s, k);
    }
    forall o: nat
      ensures HeldInv(after, o)
    {
      assert HeldInv(s, o);
    }
  }

  lemma UploadKeepsLives(s: State, policy: Policy, reference: nat, content: Bytes)
    requires LivesInv(s, policy) && NamesInv(s.store)
    requires Upload(s.store, reference, content, s.clock).1.None?
    ensures LivesInv(ApplyUpload(s, reference, content), policy)
  {
    var after := ApplyUpload(s, reference, content);
    var w := Write(reference, content, s.clock);
    forall k | k in after.store.records
      ensures LifeInv(policy, after.writes, after.store.records[k], after.clock)
    {
      assert NameInv(s.store, k) && LifeInv(policy, s.writes, s.store.records[k], s.clock);
      assert ReferenceInv(s.store, reference);
      OneMoreWrite(s.writes, w, s.store.records[k].intent.uploadReference);
    }
  }

  lemma UploadKeeps(s: State, policy: Policy, reference: nat, content: Bytes)
    requires Inv(s, policy)
    ensures Inv(ApplyUpload(s, reference, content), policy)
  {
    if Upload(s.store, reference, content, s.clock).1.None? {
      var after := ApplyUpload(s, reference, content);
      var key := s.store.uploadReferences[reference];
      UploadKeepsLives(s, policy, reference, content);
      ChangeKeepsNames(s, after, key, after.store.records[key]);
      ChangeKeepsDeletes(s, after, key, after.store.records[key]);
      UnacceptedKeepsObjects(s, after, key, after.store.records[key]);
    }
  }

  lemma ScanKeeps(s: State, policy: Policy, reference: nat, scan: Scan)
    requires Inv(s, policy)
    ensures Inv(ApplyScan(s, reference, scan), policy)
  {
    if RecordScan(s.store, reference, scan).1.None? {
      var after := ApplyScan(s, reference, scan);
      var key := s.store.quarantineReferences[reference];
      assert LifeInv(policy, s.writes, s.store.records[key], s.clock);
      ChangeKeepsNames(s, after, key, after.store.records[key]);
      ChangeKeepsDeletes(s, after, key, after.store.records[key]);
      UnacceptedKeepsObjects(s, after, key, after.store.records[key]);
    }
  }

  // ---------------------------------------------------------------- acceptance

  lemma AcceptanceHolds(policy: Policy, writes: seq<Write>, r: Record, reference: nat, clock: int)
    requires LifeInv(policy, writes, r, clock) && StatusOf(policy, r, clock).Verified?
    ensures LifeInv(policy, writes,
                    r.(accepted := Some(AcceptedOf(policy, r, reference, clock)), upload := None), clock)
  {
  }

  /** The next reference is issued to a record, and its content is stored under it. */
  ghost predicate Stores(s: State, after: State, key: Text, r: Record) {
    && Changes(s, after, key, r)
    && s.store.records[key].accepted.None? && r.deleted.None? && r.accepted.Some?
    && r.accepted.value.objectReference == s.store.sequence + 1 && r.accepted.value.sha256.DigestOf?
    && after.store.sequence == s.store.sequence + 1
    && after.store.objects == s.store.objects[s.store.sequence + 1 := r.accepted.value.sha256.content]
    && after.issued == s.issued[s.store.sequence + 1 := key]
  }

  lemma StoreKeepsObjects(s: State, after: State, key: Text, r: Record)
    requires ObjectsInv(s) && NamesInv(s.store) && Stores(s, after, key, r)
    ensures ObjectsInv(after)
  {
    var reference := s.store.sequence + 1;
    assert HeldInv(s, reference);
    assert reference in s.store.uploadReferences ==> ReferenceInv(s.store, reference);
    forall k | k in after.store.records
      ensures ObjectInv(after, k)
    {
      assert ObjectInv(s, k);
    }
    forall o: nat
      ensures HeldInv(after, o)
    {
      assert HeldInv(s, o);
    }
  }

  lemma AcceptStores(s: State, policy: Policy, q: Query)
    requires LivesInv(s, policy) && Takes(s, policy, q)
    ensures var key := ToRecordKey(q.owner, q.evidenceId);
            var after := ApplyAccept(s, policy, q);
            && key in after.store.records
            && Stores(s, after, key, after.store.records[key])
            && StatusOf(policy, s.store.records[key], s.clock).Verified?
            && after.store.records[key].accepted
               == Some(AcceptedOf(policy, s.store.records[key], s.store.sequence + 1, s.clock))
            && after.store.records[key]
               == s.store.records[key].(accepted := after.store.records[key].accepted, upload := None)
            && LifeInv(policy, s.writes, after.store.records[key], s.clock)
            && after.writes == s.writes
  {
    var key := ToRecordKey(q.owner, q.evidenceId);
    var r := s.store.records[key];
    assert LifeInv(policy, s.writes, r, s.clock);
    AcceptanceHolds(policy, s.writes, r, s.store.sequence + 1, s.clock);
  }

  lemma AcceptKeeps(s: State, policy: Policy, q: Query)
    requires Inv(s, policy)
    ensures Inv(ApplyAccept(s, policy, q), policy)
  {
    var after := ApplyAccept(s, policy, q);
    if Takes(s, policy, q) {
      var key := ToRecordKey(q.owner, q.evidenceId);
      AcceptStores(s, policy, q);
      StoreKeeps(s, after, policy, key, after.store.records[key]);
    } else {
      SequenceKeeps(s, policy, after.store.sequence);
    }
  }

  lemma StoreKeeps(s: State, after: State, policy: Policy, key: Text, r: Record)
    requires Inv(s, policy) && Stores(s, after, key, r)
    requires LifeInv(policy, s.writes, r, s.clock) && after.writes == s.writes
    ensures Inv(after, policy)
  {
    ChangeKeepsNames(s, after, key, r);
    ChangeKeepsDeletes(s, after, key, r);
    StoreKeepsObjects(s, after, key, r);
  }

  // ---------------------------------------------------------------- deletion

  lemma DeleteArrives(s: State, policy: Policy, c: DeleteCommand)
    requires Inv(s, policy) && DeleteCheck(s.store, c, s.clock).None?
    ensures DeleteInv(s, c)
  {
    assert LifeInv(policy, s.writes, s.store.records[ToRecordKey(c.owner, c.evidenceId)], s.clock);
  }

  /** A record is marked deleted and its object leaves the private store. */
  ghost predicate Removes(s: State, after: State, key: Text, r: Record) {
    && Changes(s, after, key, r)
    && s.store.records[key].accepted.Some? && r.accepted == s.store.records[key].accepted && r.deleted.Some?
    && after.store.objects == s.store.objects - {r.accepted.value.objectReference}
    && after.issued == s.issued && after.store.sequence == s.store.sequence
  }

  lemma RemovalKeepsObjects(s: State, after: State, key: Text, r: Record)
    requires ObjectsInv(s) && Removes(s, after, key, r)
    ensures ObjectsInv(after)
  {
    assert ObjectInv(s, key);
    forall k | k in after.store.records
      ensures ObjectInv(after, k)
    {
      assert ObjectInv(s, k);
    }
    forall o: nat
      ensures HeldInv(after, o)
    {
      assert HeldInv(s, o);
    }
  }

  lemma RemovalKeeps(s: State, after: State, policy: Policy, key: Text, r: Record)
    requires Inv(s, policy) && Removes(s, after, key, r)
    requires LifeInv(policy, s.writes, r, s.clock) && after.writes == s.writes
    ensures Inv(after, policy)
  {
    ChangeKeepsNames(s, after, key, r);
    ChangeKeepsDeletes(s, after, key, r);
    RemovalKeepsObjects(s, after, key, r);
  }

  lemma DeleteKeeps(s: State, policy: Policy, c: DeleteCommand)
    requires Inv(s, policy) && c in s.deletes
    ensures Inv(ApplyDelete(s, c), policy)
  {
    var key := ToRecordKey(c.owner, c.evidenceId);
    assert DeleteInv(s, c);
    var r := s.store.records[key];
    assert LifeInv(policy, s.writes, r, s.clock);
    if r.deleted.None? && Writable(s.clock) {
      var after := ApplyDelete(s, c);
      RemovalKeeps(s, after, policy, key, after.store.records[key]);
    }
  }

  // ---------------------------------------------------------------- all steps

  lemma LifeLater(policy: Policy, writes: seq<Write>, r: Record, clock: int, later: int)
    requires LifeInv(policy, writes, r, clock) && clock <= later
    ensures LifeInv(policy, writes, r, later)
  {
  }

  lemma TickKeeps(s: State, policy: Policy, elapsed: nat)
    requires Inv(s, policy)
    ensures Inv(s.(clock := s.clock + elapsed), policy)
  {
    var after := s.(clock := s.clock + elapsed);
    forall k | k in s.store.records
      ensures LifeInv(policy, after.writes, after.store.records[k], after.clock) && ObjectInv(after, k)
    {
      assert ObjectInv(s, k);
      LifeLater(policy, s.writes, s.store.records[k], s.clock, s.clock + elapsed);
    }
    forall o: nat
      ensures HeldInv(after, o)
    {
      assert HeldInv(s, o);
    }
    forall c | c in after.deletes
      ensures DeleteInv(after, c)
    {
      assert DeleteInv(s, c);
    }
  }

  lemma ArrivalKeeps(s: State, after: State, policy: Policy)
    requires Inv(s, policy) && after.store == s.store && after.clock == s.clock
    requires after.writes == s.writes && after.issued == s.issued
    requires forall c :: c in after.deletes ==> c in s.deletes || DeleteInv(s, c)
    ensures Inv(after, policy)
  {
    forall k | k in after.store.records
      ensures ObjectInv(after, k)
    {
      assert ObjectInv(s, k);
    }
    forall o: nat
      ensures HeldInv(after, o)
    {
      assert HeldInv(s, o);
    }
    forall c | c in after.deletes
      ensures DeleteInv(after, c)
    {
      assert DeleteInv(s, c);
    }
  }

  lemma DeleteArrivalKeeps(s: State, policy: Policy, c: DeleteCommand)
    requires Inv(s, policy) && DeleteCheck(s.store, c, s.clock).None?
    ensures Inv(s.(deletes := s.deletes + {c}), policy)
  {
    DeleteArrives(s, policy, c);
    ArrivalKeeps(s, s.(deletes := s.deletes + {c}), policy);
  }

  lemma InvStep(s: State, policy: Policy, a: Action)
    requires Inv(s, policy)
    ensures Inv(Apply(s, policy, a), policy)
  {
    if a.Tick? {
      TickKeeps(s, policy, a.elapsed);
    } else if a.RunCreate? && a.create in s.creates {
      CreateKeeps(s, policy, a.create);
    } else if a.UploadContent? {
      UploadKeeps(s, policy, a.reference, a.content);
    } else if a.ScanContent? {
      ScanKeeps(s, policy, a.reference, a.scan);
    } else if a.RunAccept? && a.query in s.accepts {
      AcceptKeeps(s, policy, a.query);
    } else if a.ArriveDelete? && DeleteCheck(s.store, a.delete, s.clock).None? {
      DeleteArrivalKeeps(s, policy, a.delete);
    } else if a.RunDelete? && a.delete in s.deletes {
      DeleteKeeps(s, policy, a.delete);
    } else {
      ArrivalKeeps(s, Apply(s, policy, a), policy);
    }
  }

  lemma InitInv(clock: int, policy: Policy)
    ensures Inv(Init(clock), policy)
  {
  }

  lemma {:induction false} InvRun(s: State, policy: Policy, actions: seq<Action>)
    requires Inv(s, policy)
    ensures Inv(Run(s, policy, actions), policy)
    decreases |actions|
  {
    if |actions| > 0 {
      InvStep(s, policy, actions[0]);
      InvRun(Apply(s, policy, actions[0]), policy, actions[1..]);
    }
  }
}
