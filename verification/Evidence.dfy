/**
 The in-memory evidence lifecycle: upload intents, a quarantine written once, scans,
 acceptance into a private store, and deletion after retention. Acceptance, creation and
 deletion have a check made when the call arrives and a body that the idempotency protocol
 runs later; both parts are given. A SHA-256 digest stands for the content it was taken of.
 A reference is the sequence number its text carries.
 */
module Evidence {
  import opened Wrappers
  import opened Text
  import Idempotency

  type Byte = b: int | 0 <= b < 256

  type Bytes = seq<Byte>

  datatype MediaType = Jpeg | Png | Webp

  datatype Classification = Purchase | Collection | Weight | Dispatch | Delivery

  /** A 64-digit digest of some content or of none, or a text that is no digest. */
  datatype Sha256 = DigestOf(content: Bytes) | OtherDigest(id: nat) | NoDigest

  datatype Verdict = Clean | Infected | Unavailable

  datatype Scan = Scan(verdict: Verdict, scanReference: Text, scanned: Option<Sha256>)

  datatype Intent = Intent(
    evidenceId: Text, uploadReference: nat, quarantineReference: nat,
    allowedMediaTypes: seq<MediaType>, maximumByteLength: int, expiresAt: int)

  datatype Accepted = Accepted(
    evidenceId: Text, owner: Text, classification: Classification, objectReference: nat, sha256: Sha256,
    byteLength: nat, mediaType: MediaType, scanReference: Text, acceptedAt: int, retentionExpiresAt: int)

  datatype Deletion = Deletion(at: int, objectReference: nat)

  datatype Record = Record(
    evidenceId: Text, owner: Text, classification: Classification, intent: Intent,
    upload: Option<Bytes>, scan: Option<Scan>, accepted: Option<Accepted>, deleted: Option<Deletion>)

  datatype Policy = Policy(
    allowedMediaTypes: seq<MediaType>, maximumByteLength: int,
    uploadIntentTtlSeconds: int, acceptedRetentionSeconds: int)

  /** The lifecycle's maps: references point at record keys, `objects` is the private store. */
  datatype Store = Store(
    records: map<Text, Record>, uploadReferences: map<nat, Text>, quarantineReferences: map<nat, Text>,
    objects: map<nat, Bytes>, sequence: nat)

  datatype Error =
    | ValidationFailed | UploadImmutable | UploadExpired | NotFound | NotVerified | ObjectMismatch | RetentionActive

  const MAX_INSTANT := 8_640_000_000_000_000

  predicate ValidPolicy(policy: Policy) {
    && 1 <= policy.maximumByteLength <= 104_857_600
    && 60 <= policy.uploadIntentTtlSeconds <= 86_400
    && 60 <= policy.acceptedRetentionSeconds <= 31_536_000
    && |policy.allowedMediaTypes| > 0
    && forall i, j :: 0 <= i < j < |policy.allowedMediaTypes| ==>
         policy.allowedMediaTypes[i] != policy.allowedMediaTypes[j]
  }

  predicate ValidIdentity(value: Text) {
    Idempotency.Matches(value, Idempotency.IsAlphanumeric, Idempotency.IsSafe, 2, 127)
  }

  function ToRecordKey(owner: Text, evidenceId: Text): Text {
    owner + ([NUL] + evidenceId)
  }

  /** Validated owners and identifiers never share a record key. */
  lemma RecordKeyInjective(owner: Text, id: Text, otherOwner: Text, otherId: Text)
    requires ValidIdentity(owner) && ValidIdentity(otherOwner)
    ensures ToRecordKey(owner, id) == ToRecordKey(otherOwner, otherId) <==> owner == otherOwner && id == otherId
  {
    if ToRecordKey(owner, id) == ToRecordKey(otherOwner, otherId) {
      Idempotency.HasNoNul(owner, Idempotency.IsAlphanumeric, Idempotency.IsSafe, 2, 127);
      Idempotency.HasNoNul(otherOwner, Idempotency.IsAlphanumeric, Idempotency.IsSafe, 2, 127);
      Idempotency.SplitAtNul(owner, id, otherOwner, otherId);
    }
  }

  /** The type a content's first bytes announce. */
  function DetectMediaType(content: Bytes): Option<MediaType> {
    if |content| >= 3 && content[..3] == [0xFF, 0xD8, 0xFF] then Some(Jpeg)
    else if |content| >= 8 && content[..8] == [0x89, 0x50, 0x4E, 0x47, 0x0D, 0x0A, 0x1A, 0x0A] then Some(Png)
    else if |content| >= 12 && content[..4] == [0x52, 0x49, 0x46, 0x46] && content[8..12] == [0x57, 0x45, 0x42, 0x50]
      then Some(Webp)
    else None
  }

  /** An instant that can be written out; later ones make the clock arithmetic throw. */
  predicate Writable(instant: int) {
    -MAX_INSTANT <= instant <= MAX_INSTANT
  }

  // ---------------------------------------------------------------- upload intents

  datatype CreateCommand = CreateCommand(owner: Text, evidenceId: Text, classification: Classification)

  function CreateCheck(s: Store, c: CreateCommand): Option<Error> {
    var key := ToRecordKey(c.owner, c.evidenceId);
    if !ValidIdentity(c.evidenceId) || !ValidIdentity(c.owner) then Some(ValidationFailed)
    else if key in s.records && s.records[key].classification != c.classification then Some(ValidationFailed)
    else None
  }

  function NewRecord(policy: Policy, c: CreateCommand, reference: nat, expiresAt: int): Record {
    Record(c.evidenceId, c.owner, c.classification,
           Intent(c.evidenceId, reference, reference, policy.allowedMediaTypes, policy.maximumByteLength, expiresAt),
           None, None, None, None)
  }

  function CreateBody(s: Store, policy: Policy, c: CreateCommand, now: int): (Store, Result<Intent, Error>) {
    var key := ToRecordKey(c.owner, c.evidenceId);
    if key in s.records then (s, Ok(s.records[key].intent))
    else
      var reference := s.sequence + 1;
      var expiresAt := now + policy.uploadIntentTtlSeconds * 1_000;
      if !Writable(expiresAt) then (s.(sequence := reference), Err(ValidationFailed))
      else
        var record := NewRecord(policy, c, reference, expiresAt);
        (Store(s.records[key := record], s.uploadReferences[reference := key],
               s.quarantineReferences[reference := key], s.objects, reference), Ok(record.intent))
  }

  // ---------------------------------------------------------------- quarantine

  function Upload(s: Store, reference: nat, content: Bytes, now: int): (Store, Option<Error>) {
    if reference !in s.uploadReferences || s.uploadReferences[reference] !in s.records then (s, Some(NotFound))
    else
      var key := s.uploadReferences[reference];
      var record := s.records[key];
      if record.upload.Some? || record.accepted.Some? || record.deleted.Some? then (s, Some(UploadImmutable))
      else if now >= record.intent.expiresAt then (s, Some(UploadExpired))
      else (s.(records := s.records[key := record.(upload := Some(content))]), None)
  }

  function RecordScan(s: Store, reference: nat, scan: Scan): (Store, Option<Error>) {
    if reference !in s.quarantineReferences || s.quarantineReferences[reference] !in s.records
      then (s, Some(NotFound))
    else
      var key := s.quarantineReferences[reference];
      var record := s.records[key];
      if record.upload.None? then (s, Some(NotFound))
      else if !scan.verdict.Unavailable? && (scan.scanned.None? || scan.scanned.value.NoDigest?)
        then (s, Some(ValidationFailed))
      else if scan.verdict.Unavailable? && scan.scanned.Some? then (s, Some(ValidationFailed))
      else if !ValidIdentity(scan.scanReference) then (s, Some(ValidationFailed))
      else (s.(records := s.records[key := record.(scan := Some(scan))]), None)
  }

  // ---------------------------------------------------------------- inspection

  datatype Query = Query(owner: Text, evidenceId: Text, quarantineReference: nat)

  datatype Status = Deleted | Kept | AwaitingUpload | Pending | Rejected(reason: Rejection) | Verified

  datatype Rejection = Expired | EmptyFile | FileTooLarge | UnsupportedMediaType | DigestMismatch | ScanRejected

  function FindRecord(s: Store, owner: Text, evidenceId: Text): Result<Record, Error> {
    var key := ToRecordKey(owner, evidenceId);
    if !ValidIdentity(evidenceId) || !ValidIdentity(owner) then Err(ValidationFailed)
    else if key !in s.records then Err(NotFound)
    else Ok(s.records[key])
  }

  function FindForQuery(s: Store, q: Query): Result<Record, Error> {
    var found := FindRecord(s, q.owner, q.evidenceId);
    if found.Err? then found
    else if found.value.intent.quarantineReference != q.quarantineReference then Err(ObjectMismatch)
    else found
  }

  /** Why the content alone is refused. */
  function ContentRejection(policy: Policy, content: Bytes): Option<Rejection> {
    var mediaType := DetectMediaType(content);
    if |content| == 0 then Some(EmptyFile)
    else if |content| > policy.maximumByteLength then Some(FileTooLarge)
    else if mediaType.None? || mediaType.value !in policy.allowedMediaTypes then Some(UnsupportedMediaType)
    else None
  }

  function StatusOf(policy: Policy, r: Record, now: int): Status {
    if r.deleted.Some? then Deleted
    else if r.accepted.Some? then Kept
    else if r.upload.None? then (if now >= r.intent.expiresAt then Rejected(Expired) else AwaitingUpload)
    else
      var content := r.upload.value;
      if ContentRejection(policy, content).Some? then Rejected(ContentRejection(policy, content).value)
      else if r.scan.None? || r.scan.value.verdict.Unavailable? then Pending
      else if r.scan.value.scanned != Some(DigestOf(content)) then Rejected(DigestMismatch)
      else if r.scan.value.verdict.Infected? then Rejected(ScanRejected)
      else Verified
  }

  // ---------------------------------------------------------------- acceptance

  function AcceptCheck(s: Store, policy: Policy, q: Query, now: int): Option<Error> {
    var found := FindForQuery(s, q);
    if found.Err? then Some(found.error)
    else
      var status := StatusOf(policy, found.value, now);
      if !status.Verified? && !status.Kept? then Some(NotVerified) else None
  }

  function AcceptedOf(policy: Policy, r: Record, reference: nat, now: int): Accepted
    requires StatusOf(policy, r, now).Verified?
  {
    var content := r.upload.value;
    Accepted(r.evidenceId, r.owner, r.classification, reference, DigestOf(content), |content|,
             DetectMediaType(content).value, r.scan.value.scanReference, now,
             now + policy.acceptedRetentionSeconds * 1_000)
  }

  function AcceptBody(s: Store, policy: Policy, q: Query, now: int): (Store, Result<Accepted, Error>) {
    var found := FindForQuery(s, q);
    if found.Err? then (s, Err(found.error))
    else
      var r := found.value;
      if r.accepted.Some? then (s, Ok(r.accepted.value))
      else if !StatusOf(policy, r, now).Verified? then (s, Err(NotVerified))
      else
        var reference := s.sequence + 1;
        var accepted := AcceptedOf(policy, r, reference, now);
        if !Writable(now) || !Writable(accepted.retentionExpiresAt)
          then (s.(sequence := reference), Err(ValidationFailed))
        else
          (s.(records := s.records[ToRecordKey(q.owner, q.evidenceId) := r.(accepted := Some(accepted), upload := None)],
              objects := s.objects[reference := r.upload.value],
              sequence := reference), Ok(accepted))
  }

  // ---------------------------------------------------------------- deletion

  datatype DeleteCommand = DeleteCommand(owner: Text, evidenceId: Text, objectReference: nat)

  function DeleteCheck(s: Store, c: DeleteCommand, now: int): Option<Error> {
    var found := FindRecord(s, c.owner, c.evidenceId);
    if found.Err? then Some(found.error)
    else
      var r := found.value;
      if r.deleted.Some? then
        (if r.deleted.value.objectReference != c.objectReference then Some(ObjectMismatch) else None)
      else if r.accepted.None? then Some(NotVerified)
      else if r.accepted.value.objectReference != c.objectReference then Some(ObjectMismatch)
      else if now < r.accepted.value.retentionExpiresAt then Some(RetentionActive)
      else None
  }

  /** Runs on the record its check found; nothing is checked again but an earlier deletion. */
  function DeleteBody(s: Store, c: DeleteCommand, now: int): (Store, Result<int, Error>) {
    var key := ToRecordKey(c.owner, c.evidenceId);
    if key !in s.records then (s, Err(NotFound))
    else
      var r := s.records[key];
      if r.deleted.Some? then (s, Ok(r.deleted.value.at))
      else if !Writable(now) then (s, Err(ValidationFailed))
      else
        (s.(records := s.records[key := r.(deleted := Some(Deletion(now, c.objectReference)))],
            objects := s.objects - {c.objectReference}), Ok(now))
  }

  // ---------------------------------------------------------------- the class

  class InMemoryEvidenceLifecycle {
    const policy: Policy
    var records: map<Text, Record>
    var uploadReferences: map<nat, Text>
    var quarantineReferences: map<nat, Text>
    var objects: map<nat, Bytes>
    var sequence: nat

    ghost function Contents(): Store
      reads this
    {
      Store(records, uploadReferences, quarantineReferences, objects, sequence)
    }

    constructor (policy: Policy)
      requires ValidPolicy(policy)
      ensures this.policy == policy && Contents() == Store(map[], map[], map[], map[], 0)
    {
      this.policy := policy;
      records, uploadReferences, quarantineReferences, objects, sequence := map[], map[], map[], map[], 0;
    }

    method CreateIntent(c: CreateCommand, now: int) returns (intent: Result<Intent, Error>)
      modifies this
      ensures (Contents(), intent) == CreateBody(old(Contents()), policy, c, now)
    {
      var key := ToRecordKey(c.owner, c.evidenceId);
      if key in records {
        return Ok(records[key].intent);
      }
      sequence := sequence + 1;
      var expiresAt := now + policy.uploadIntentTtlSeconds * 1_000;
      if !Writable(expiresAt) {
        return Err(ValidationFailed);
      }
      var record := NewRecord(policy, c, sequence, expiresAt);
      records := records[key := record];
      uploadReferences := uploadReferences[sequence := key];
      quarantineReferences := quarantineReferences[sequence := key];
      return Ok(record.intent);
    }

    method UploadToQuarantine(reference: nat, content: Bytes, now: int) returns (refusal: Option<Error>)
      modifies this`records
      ensures (Contents(), refusal) == Upload(old(Contents()), reference, content, now)
    {
      if reference !in uploadReferences || uploadReferences[reference] !in records {
        return Some(NotFound);
      }
      var key := uploadReferences[reference];
      var record := records[key];
      if record.upload.Some? || record.accepted.Some? || record.deleted.Some? {
        return Some(UploadImmutable);
      }
      if now >= record.intent.expiresAt {
        return Some(UploadExpired);
      }
      records := records[key := record.(upload := Some(content))];
      return None;
    }

    method RecordScanResult(reference: nat, scan: Scan) returns (refusal: Option<Error>)
      modifies this`records
      ensures (Contents(), refusal) == RecordScan(old(Contents()), reference, scan)
    {
      if reference !in quarantineReferences || quarantineReferences[reference] !in records {
        return Some(NotFound);
      }
      var key := quarantineReferences[reference];
      var record := records[key];
      if record.upload.None? {
        return Some(NotFound);
      }
      if !scan.verdict.Unavailable? && (scan.scanned.None? || scan.scanned.value.NoDigest?) {
        return Some(ValidationFailed);
      }
      if (scan.verdict.Unavailable? && scan.scanned.Some?) || !ValidIdentity(scan.scanReference) {
        return Some(ValidationFailed);
      }
      records := records[key := record.(scan := Some(scan))];
      return None;
    }

    method Accept(q: Query, now: int) returns (result: Result<Accepted, Error>)
      modifies this
      ensures (Contents(), result) == AcceptBody(old(Contents()), policy, q, now)
    {
      var found := FindForQuery(Store(records, uploadReferences, quarantineReferences, objects, sequence), q);
      if found.Err? {
        return Err(found.error);
      }
      var record := found.value;
      if record.accepted.Some? {
        return Ok(record.accepted.value);
      }
      if !StatusOf(policy, record, now).Verified? {
        return Err(NotVerified);
      }
      sequence := sequence + 1;
      var accepted := AcceptedOf(policy, record, sequence, now);
      if !Writable(now) || !Writable(accepted.retentionExpiresAt) {
        return Err(ValidationFailed);
      }
      objects := objects[sequence := record.upload.value];
      records := records[ToRecordKey(q.owner, q.evidenceId) := record.(accepted := Some(accepted), upload := None)];
      return Ok(accepted);
    }

    method DeleteExpired(c: DeleteCommand, now: int) returns (result: Result<int, Error>)
      modifies this`records, this`objects
      ensures (Contents(), result) == DeleteBody(old(Contents()), c, now)
    {
      var key := ToRecordKey(c.owner, c.evidenceId);
      if key !in records {
        return Err(NotFound);
      }
      var record := records[key];
      if record.deleted.Some? {
        return Ok(record.deleted.value.at);
      }
      if !Writable(now) {
        return Err(ValidationFailed);
      }
      objects := objects - {c.objectReference};
      records := records[key := record.(deleted := Some(Deletion(now, c.objectReference)))];
      return Ok(now);
    }
  }
}
