# NitipCuy marketplace: a verified model

This project models the stateful protocols and the encoders of the NitipCuy backend in Dafny
and proves what they keep over whole runs, with any number of callers interleaving. Verify it
with `dafny verify dfyconfig.toml`.

## What is modelled

- **Canonical payloads** (`CanonicalPayload`, `CanonicalReader`, `CanonicalTheorems`, over `Text`,
  `NumberText`, `KeyedSort`): the printer behind command fingerprints, down to JSON escapes
  (section 7 of RFC 8259), Number::toString (section 6.1.6.1.20 of ECMA-262) and key sorting, and a
  reader that undoes it.
- **Idempotency** (`Idempotency`, `IdempotencyProtocol`, `IdempotencyAnswers`): the store as a class, one
  call of `executeIdempotently` as a method, callers that claim, run, succeed, fail or stop in any order, and
  what each of them is told.
- **Sessions** (`Sessions`, `SessionRuns`, `SessionAnswers`): the session authority as a class over one
  table, runs of its transactions with account changes and time in between, and what each call answers and ends.
- **Abuse limits** (`AbusePolicy`, `AbuseProtection`, `AbuseLimits`, `AbuseRuns`, `AbuseTheorems`,
  `AbuseSubjects`, `AbuseParties`, `AbuseLocks`, `AbuseScenarios`, `AbuseDeadlocks`): the policy table and the
  limits built from it, for whom each of them counts, the limiter with its loops, and any number of evaluations
  interleaving clock read, cleanup row by row, one upsert per axis and commit at read committed, against the
  true attempt history; their row locks; the run in which a bound fails; and exactly when evaluations can wait
  for each other in a cycle.
- **Trips** (`Trips`, `TripProjection`, `TripAnswers`, `TripDiscovery`, `DiscoveryAnswers`): drafts, a
  trip's life and its questions, the public projection, and paged search.
- **Orders** (`OrderTerms`, `Capacity`, `OrderSubmission`, `OrderRuns`, `OrderInvariants`,
  `OrderTheorems`, `OrderReplays`, `OrderCalls`, `OrderAnswers`): terms, rows and fingerprints; the submission
  as a method over the tables with rollback and the retry loop; calls of up to three attempts with stale reads,
  key locks, guarded writes, unique-key and write conflicts and lost answers, interleaving with each other
  and with trip edits; and what each attempt and each edit answers and writes.
- **Evidence** (`Evidence`, `EvidenceRuns`, `EvidenceTheorems`, `EvidenceAnswers`): quarantine, scan,
  acceptance and retention deletion as a class, runs in which the body of a call happens any time after its
  check, and what each call answers, leaves and deletes.

A class method has the branches of the program's method, and its contract equates it with a transition
function of the old state. Such a contract is a link and not a result: the results are about the runs. What
each operation answers and changes is stated a second time in the modules named Answers (and `AbuseSubjects`,
`AbuseParties`), by the rows, records, texts and times alone and not by the transition functions. A chain of
checks is stated as the list of what is asked for, of which the first that fails gives the refusal. The
runs of sessions, of evidence and of the idempotency store are made of the same transition functions. For
the limiter `AbuseScenarios.UndisturbedIsEvaluate` shows that an evaluation nobody interrupts does what the
class does, and for orders `OrderTheorems.CommitIsAtomic` and `OrderCalls.OneAttemptAnswers` show that the
interleaved steps amount to the transaction the class runs.

## Where the code does less than its documentation or its neighbours

Each of these is a lemma with a concrete input, or an exact condition for all inputs.

- `docs/learning.md:782` asks that different payloads never collide. An array that is one single hole
  prints as the empty array (`CanonicalTheorems.LoneHoleCollision`); that is the only way two payloads
  can collide (`CanonicalTheorems.CanonicalTextCollisions`).
- A draft leaving from the zone Etc/GMT+12 in the last hour of 9999-12-31 there, which is the year 10000
  in UTC, is accepted, can be published, and then cannot be projected (`TripProjection.UnprojectableDraft`);
  projection works exactly when the six stored instants lie in the UTC years 0000 to 9999
  (`TripProjection.ProjectionTotal`).
- A trip may arrive at the instant it departs, but the order table wants a strictly later arrival, so no
  order on such a trip ever succeeds (`OrderSubmission.InstantTripsTakeNoOrders`). The table also counts
  characters where the domain counts UTF-16 units (`OrderSubmission.OrderTableRefuses`).
- Rotation reads the clock twice; if the absolute deadline passes in between, the insert breaks a table
  check and the rotation is rolled back (`SessionRuns.RotationHandsOver`).
- When a result cannot be cloned, or its expiry leaves the safe integers, storing it fails
  (`IdempotencyProtocol.ConclusionIsOwned`) and its record stays pending for good
  (`IdempotencyProtocol.UnstorableResultBlocksKey`).
- The limiter may admit more than the maximum in one fixed window (`AbuseScenarios.WindowOverrun`): its time
  is the start of its transaction, so an evaluation that began before the window ended can charge a fresh
  row after a later evaluation has swept the full one. A bucket that is there holds its true attempts
  exactly when it had no such late charge (`AbuseTheorems.CountsAreTrue`), and it lets pass at most the
  maximum exactly when it had none or its attempts are within the maximum (`AbuseTheorems.WindowBound`).
- Ordering the axes does not rule deadlock out, because the cleanup deletes rows in no such order. A cycle of
  waits can be reached exactly when the cleanup may delete more than one row and any rule is in use, or when
  some policy charges an axis before another whose window is no multiple of its own
  (`AbuseDeadlocks.DeadlockIff`). Both hold of the program: the batch is 100 by default, and `order.submit`
  charges an account's ten minutes before a network's one minute (`AbuseDeadlocks.TableDeadlocks`).
- The columns of an order hold UTF-8, so an order whose texts have lone surrogates cannot read back as it
  was: a replay answers other terms than the creation did, and otherwise the same ones
  (`OrderTerms.StorageRoundTrip`, `OrderReplays.AnswersAreTheSameRequest`).
- Abuse subjects that differ only in lone surrogates are hashed from one text
  (`AbusePolicy.LoneSurrogatesCollide`); no other pairs collide (`AbusePolicy.FrameInjective`).
- Content rejections of evidence are final, scan rejections are not
  (`EvidenceTheorems.ContentRejectionIsFinal`, `EvidenceTheorems.CleanRescanVerifies`).

## Assumptions

Clocks never go back within one store (the database clock, or the process clock of an in-memory adapter),
but the time of a limiter evaluation is that of its transaction's start, so evaluations need not commit in
the order of their times. A committed session transaction is one atomic step. A submission and a trip edit
are split into reads and a guarded write, a submission with its key lock in between, and no isolation is
assumed between them beyond row guards, unique keys, the lock and all-or-nothing commits; a conflict may be
reported at any time. A limiter evaluation is split into its clock read, the choice of its cleanup's rows,
one deletion per row and one upsert per axis, each waiting for the row's lock, and its commit. The cleanup
statement chooses the earliest expired rows but says nothing about the order in which it deletes them, so
any order is possible; a chosen row that has changed by its turn may be passed over. SHA-256 and HMAC
digests are injective on the UTF-8 they are taken of; session tokens, leases and references are fresh, but
an order identifier may be taken. A lone surrogate reaches a column as U+FFFD, as in encoding to UTF-8. Case
mapping and collation are parameters, and so are time zones and the calendar, except in
`TripProjection.TwoZones`, which computes them for two fixed offsets.

## Model

Rows that name a class method state the link between that method and the transition the runs are made of.

| member | source | states |
|---|---|---|
| Text.ReadQuote | packages/adapters/src/idempotency-support.ts:171-173 | A JSON string literal, with its escapes and lone surrogates, reads back as the string in front of any continuation |
| Text.TrimIsExact | packages/domain/src/order-request.ts:183-199 | `trim` removes white space from both ends until none is left there, and nothing else |
| Text.ScrubIsExact | packages/adapters/src/prisma-marketplace.ts:270-310 | Exactly the lone surrogates of a text become U+FFFD on its way into UTF-8 |
| NumberText.ReadPrint | packages/adapters/src/idempotency-support.ts:179-185 | A printed finite number, negative zero included, determines its sign, digits and decimal point |
| CanonicalPayload.RefusedIffUnsupported | packages/adapters/src/idempotency-support.ts:166-214 | `canonicalize` throws exactly for payloads with a non-finite number, a non-plain object or an unsupported value somewhere |
| CanonicalTheorems.ReadsPrinted | packages/adapters/src/idempotency-support.ts:166-214 | The reader undoes the printer for every printable payload, in front of any continuation |
| CanonicalTheorems.EqualMeaningEqualText | packages/adapters/src/idempotency-support.ts:206-210 | Payloads equal as values, objects compared as maps, have one text: key order never shows |
| CanonicalTheorems.SameTextIffSameMeaning | packages/adapters/src/idempotency-support.ts:166-214 | Without single-hole arrays, two payloads have the same text exactly when they are the same value |
| CanonicalTheorems.CanonicalTextCollisions | packages/adapters/src/idempotency-support.ts:166-214 | Over all accepted payloads: same text exactly when they agree once every single-hole array is read as empty |
| CanonicalTheorems.LoneHoleCollision | packages/adapters/src/idempotency-support.ts:195-197 | The collision at its smallest: `[ , ]` with one hole and `[]` |
| Idempotency.ScopedKeyInjective | packages/adapters/src/idempotency-support.ts:152-154 | The NUL join never confuses two validated scope, operation and key triples |
| Idempotency.InMemoryIdempotencyStore.Claim | packages/adapters/src/idempotency-support.ts:48-85 | The link for `claim`: reply and store are those of the claim transition, which `IdempotencyAnswers.ArrivalIsExact` states outright |
| Idempotency.InMemoryIdempotencyStore.Complete | packages/adapters/src/idempotency-support.ts:87-116 | Only the owner of the pending lease stores a result, and only one that can be cloned, with an expiry in the safe integers; everything else leaves the store alone |
| Idempotency.InMemoryIdempotencyStore.NeedRecovery | packages/adapters/src/idempotency-support.ts:118-143 | Only the owner of the pending lease marks the key as needing recovery |
| Idempotency.ExecuteIdempotently | packages/application/src/idempotency.ts:112-170 | One whole call, with its validation, every claim reply, and both outcomes of the body |
| Idempotency.ReplayUntilExpiry | packages/application/src/idempotency.ts:112-170 | A completed result is replayed unchanged, without running a body, until its retention has passed |
| Idempotency.FailureIsSticky | packages/application/src/idempotency.ts:139-158 | After a failed body every later call of the key is refused and changes nothing |
| IdempotencyProtocol.AtMostOnce | packages/application/src/idempotency.ts:112-170 | In every interleaving a body starts under a key once, plus once per expiry of a stored result; replays give the latest stored result to its own fingerprint |
| IdempotencyProtocol.BodiesNeverOverlap | packages/adapters/src/idempotency-support.ts:48-85 | No two callers are ever between claim and conclusion under one key |
| IdempotencyProtocol.ConclusionIsOwned | packages/adapters/src/idempotency-support.ts:87-143 | The "does not own the active claim" rejections never happen to a caller of the protocol; storing fails exactly when the result cannot be cloned or its expiry leaves the safe integers |
| IdempotencyProtocol.UnstorableResultBlocksKey | packages/adapters/src/idempotency-support.ts:104-112 | From every reachable state: after a caller fails to store its result the record stays pending, and no body starts under its key, whatever anybody does |
| IdempotencyProtocol.StoppedCallerBlocksKey | packages/adapters/src/idempotency-support.ts:64-65 | A caller that stops after its claim leaves the key pending, and no body starts under it, in every later state |
| IdempotencyProtocol.FailureBlocksKey | packages/adapters/src/idempotency-support.ts:66-67 | A key that needs recovery keeps that record, and no body starts under it, in every later state |
| IdempotencyProtocol.KeysIndependent | packages/adapters/src/idempotency-support.ts:152-154 | Callers of operations with another scope, name or key leave an operation's record alone and start no body for it, in every interleaving, because the joined keys differ |
| IdempotencyAnswers.ArrivalIsExact | packages/adapters/src/idempotency-support.ts:48-85 | In every reachable state a new call starts a body exactly if its key has no record or a result whose time is over, which is then logged as expired; else it changes nothing and is told conflict, in progress, recovery or the last stored result, each exactly under its condition on fingerprint and record |
| IdempotencyAnswers.ConclusionIsExact | packages/adapters/src/idempotency-support.ts:87-143 | In every reachable state the end of a call stores its result until the retention has passed, or leaves a record that needs recovery, or changes nothing because the result cannot be stored; no other record changes |
| IdempotencyAnswers.ResultsLast | packages/adapters/src/idempotency-support.ts:57-61 | Over any run a stored result stays as it is until its time is over, and no body starts under its key before |
| IdempotencyAnswers.ReturnedIsReplayed | packages/application/src/idempotency.ts:112-170 | Once a call has returned a result, every later call of the same operation and fingerprint returns it without a body until the retention has passed, and the first one after that runs its body again |
| IdempotencyAnswers.OnlyOwnersEnd | packages/adapters/src/idempotency-support.ts:87-143 | On any store exactly the pending record of this lease and fingerprint is ended; everybody else changes nothing |
| IdempotencyAnswers.ValidationIsExact | packages/application/src/idempotency.ts:172-204 | An operation is refused for the first of its parts that does not have the documented shape, or for its retention |
| IdempotencyAnswers.AloneIsACall | packages/application/src/idempotency.ts:112-170 | A whole call run alone has the store and the answer of its steps in the protocol, and a failed body's own error comes back |
| Sessions.PostgresSessionAuthority.Open | packages/adapters/src/postgres-session-authority.ts:47-72 | An authority is made exactly for lifetimes within the bounds, with the defaults where none is given, over a table without sessions |
| Sessions.PostgresSessionAuthority.CreateSession | packages/adapters/src/postgres-session-authority.ts:74-91 | A session is granted exactly to active accounts, with the lifetimes of the policy |
| Sessions.PostgresSessionAuthority.UpdateMany | packages/adapters/src/postgres-session-authority.ts:107-114 | The chosen active sessions end with the given status, time and reason, no other row changes, and the count is right |
| Sessions.PostgresSessionAuthority.ValidateToken | packages/adapters/src/postgres-session-authority.ts:93-156 | The actor and the whole new table: reuse kills the family, stale sessions end, accepted ones get a new idle deadline |
| Sessions.PostgresSessionAuthority.RotateToken | packages/adapters/src/postgres-session-authority.ts:158-194 | Rotation marks the old session and inserts its child, or changes nothing |
| Sessions.PostgresSessionAuthority.RevokeToken | packages/adapters/src/postgres-session-authority.ts:196-206 | The link for logout: table and answer are those of its transition, which `SessionAnswers.LogoutEnds` states outright |
| Sessions.PostgresSessionAuthority.RevokeAccount | packages/adapters/src/postgres-session-authority.ts:208-226 | The account's version grows and all its active sessions end |
| Sessions.PostgresSessionAuthority.RevokeSession | packages/adapters/src/postgres-session-authority.ts:256-266 | An owner ends one active session of their own, and nobody else's |
| SessionRuns.FamiliesAreChains | packages/adapters/src/postgres-session-authority.ts:186-192 | In every reachable state a family is one parent chain |
| SessionRuns.RotatedIffSuperseded | packages/adapters/src/postgres-session-authority.ts:178-192 | A session is rotated exactly when its family has a younger member, so at most the youngest is active |
| SessionRuns.LifetimesBind | packages/adapters/src/postgres-session-authority.ts:118-152 | No token is accepted at or after its root's creation plus the absolute lifetime, however often rotated, nor after the idle lifetime |
| SessionRuns.ActiveDeadlines | packages/adapters/src/postgres-session-authority.ts:143-152 | An active session has the root's absolute deadline, the idle deadline min(last seen + idle, absolute), and its account's version |
| SessionRuns.ReuseKillsFamily | packages/adapters/src/postgres-session-authority.ts:105-116 | After a rotated token is presented, no member of its family is ever active or accepted again |
| SessionRuns.AccountRevocationIsFinal | packages/adapters/src/postgres-session-authority.ts:208-226 | After an account-wide revocation no token granted before is ever accepted again |
| SessionRuns.AcceptedTokensAreActive | packages/adapters/src/prisma-marketplace.ts:387-410 | A token is accepted exactly when the command-side session check accepts its actor, and still does after |
| SessionRuns.ListedSessionsAreUsable | packages/adapters/src/postgres-session-authority.ts:228-240 | An active account's listed sessions are exactly those whose token would be accepted |
| SessionRuns.RotationHandsOver | packages/adapters/src/postgres-session-authority.ts:158-194 | The new token works at once for the same actor and deadline, the old one no longer; rolled back exactly when the deadline passes between the two clock reads |
| SessionAnswers.PolicyIff | packages/adapters/src/postgres-session-authority.ts:47-72 | Which lifetimes are accepted, and the defaults |
| SessionAnswers.RunsAreCalls | packages/adapters/src/postgres-session-authority.ts:74-266 | A run is its calls one after another, each at the clock it finds, with accounts opened and set in between |
| SessionAnswers.CreationIsExact | packages/adapters/src/postgres-session-authority.ts:74-91 | Exactly an active account is granted a session; its whole row, accepted at once, and no other row changes |
| SessionAnswers.ValidationIsExact | packages/adapters/src/postgres-session-authority.ts:93-156 | Exactly a token whose row is in force is accepted, as its own actor; which rows change and how, for accepted, rotated, expired, revoked and unknown tokens |
| SessionAnswers.RotationIsExact | packages/adapters/src/postgres-session-authority.ts:158-194 | Exactly when a rotation is granted, refused or rolled back, and the two rows it leaves |
| SessionAnswers.LogoutEnds | packages/adapters/src/postgres-session-authority.ts:196-206 | A logout says whether its session was active and ends it: over any later run the token is never accepted, rotated or let through again; every other row is as before and its token is accepted exactly if it was |
| SessionAnswers.UnknownLogout | packages/adapters/src/postgres-session-authority.ts:196-206 | A logout with a token nobody has changes nothing and says so |
| SessionAnswers.OwnerRevocationEnds | packages/adapters/src/postgres-session-authority.ts:256-266 | The same for an owner revoking a session; another account's session is not touched and is accepted exactly if it was |
| SessionAnswers.AccountRevocationEnds | packages/adapters/src/postgres-session-authority.ts:208-226 | Exactly the account's active sessions end and its version grows by one; every other account and session is as before |
| SessionAnswers.CommandCheckIff | packages/adapters/src/prisma-marketplace.ts:387-410 | The command-side check lets exactly the actor of a session in force through |
| SessionAnswers.ListingIff | packages/adapters/src/postgres-session-authority.ts:228-240 | An account sees exactly its active sessions within both deadlines |
| AbuseProtection.PostgresAbuseProtection.Sweep | packages/adapters/src/postgres-abuse-protection.ts:95-103 | Removes the earliest expired buckets up to the batch size, and nothing else |
| AbuseProtection.PostgresAbuseProtection.ChargeEach | packages/adapters/src/postgres-abuse-protection.ts:116-147 | The link for the upsert loop: table and denials are those of charging every limit in order; whose bucket each limit charges is stated by `AbuseSubjects.BucketsAgreeIff` |
| AbuseProtection.PostgresAbuseProtection.AuditEach | packages/adapters/src/postgres-abuse-protection.ts:149-174 | The denial loop flags each unflagged bucket with one audit event |
| AbuseProtection.PostgresAbuseProtection.EvaluateRequest | packages/adapters/src/postgres-abuse-protection.ts:80-197 | Refusals, table, audits and decision of one evaluation run alone, for some sweep the cleanup may make |
| AbuseLimits.OrderIrrelevant | packages/adapters/src/postgres-abuse-protection.ts:225-259 | Two requests listing the same limits in any order are normalised to the same limits, or both refused |
| AbuseLimits.RefusalIsExact | packages/adapters/src/postgres-abuse-protection.ts:80-90 | A request is refused for the first of its parts that does not fit: policy name, correlation, and one to five limits of different axes within bounds |
| AbuseRuns.InvStep | packages/adapters/src/postgres-abuse-protection.ts:93-178 | Every begin, choice of a cleanup, deletion, upsert, commit, abort and passing of time of interleaving evaluations keeps rows, flags, audit events and what is in flight in step with the attempt history, and no two evaluations lock one row |
| AbuseTheorems.CountsAreTrue | packages/adapters/src/postgres-abuse-protection.ts:93-174 | In every interleaving: a live bucket holds the true number of committed attempts until its window ends, and afterwards exactly when nothing charged it after a sweep had removed it; flagged exactly above the limit, with one audit event each time it goes above |
| AbuseTheorems.LateChargeStraddles | packages/adapters/src/postgres-abuse-protection.ts:93-103 | A charge of a removed bucket is by an evaluation that read its time before the window ended and committed after |
| AbuseTheorems.DecisionIsExact | packages/adapters/src/postgres-abuse-protection.ts:116-183 | A request about to commit is denied exactly the axes whose buckets had no room left since they were last removed; that count is the true attempts exactly when the bucket was never removed, and it can have been only after its window, with the evaluation under way |
| AbuseTheorems.PassedIsExact | packages/adapters/src/postgres-abuse-protection.ts:117-146 | A bucket lets pass exactly the maximum, or all attempts if fewer, plus its slips |
| AbuseTheorems.SlipsExactly | packages/adapters/src/postgres-abuse-protection.ts:117-146 | Something passes beyond the true maximum exactly when the bucket was charged late and has more attempts than the maximum |
| AbuseTheorems.WindowBound | packages/adapters/src/postgres-abuse-protection.ts:117-146 | In every interleaving a fixed window admits no more than its bucket lets pass, and that is at most the maximum exactly when the bucket was never charged late or has no more attempts than the maximum; a late charge needs an evaluation under way at the end of the window |
| AbuseTheorems.IntervalBound | packages/adapters/src/postgres-abuse-protection.ts:117-146 | Any interval one window long admits at most twice the maximum and the slips of its two windows, hence at most twice the maximum if neither was charged late |
| AbuseTheorems.RetryIsLeast | packages/adapters/src/postgres-abuse-protection.ts:180-192 | The retry time is the least whole seconds after which every denied bucket has expired, in 1..86400, and neither clamp changes it |
| AbuseSubjects.BucketsAgreeIff | packages/adapters/src/postgres-abuse-protection.ts:117-128 | Two limits of one axis and window length share a bucket exactly when policy, subject (as UTF-8) and window from the epoch agree |
| AbuseSubjects.AxesKeepApart | packages/adapters/src/postgres-abuse-protection.ts:199-206 | Different axes never share a bucket |
| AbuseSubjects.CountsAreTheSubjects | packages/adapters/src/postgres-abuse-protection.ts:117-147 | In every reachable state a bucket holds the attempts of its own subject, counted from the requests, exactly when no cleanup has removed it, so always while its window lasts |
| AbuseSubjects.DenialsAreTheSubjects | packages/adapters/src/postgres-abuse-protection.ts:145-147 | An axis whose bucket no cleanup has removed is denied exactly when its own subject has made the maximum of attempts, counted from the requests |
| AbuseSubjects.OthersDoNotCount | packages/adapters/src/postgres-abuse-protection.ts:130-143 | Committing an evaluation that does not ask for a subject changes neither its attempts nor its row |
| AbuseScenarios.UndisturbedIsEvaluate | packages/adapters/src/postgres-abuse-protection.ts:92-193 | An evaluation that nothing interrupts has the table, audit events and decision that the class computes, for a sweep the class may make |
| AbuseScenarios.WindowOverrun | packages/adapters/src/postgres-abuse-protection.ts:93-147 | A run that admits two requests in a window of one, the bucket holding one of their two attempts |
| AbuseLocks.NoDeadlock | packages/adapters/src/postgres-abuse-protection.ts:93-147 | In every reachable state a cycle of waits, of cleanups and upserts alike, goes through a row that one of its members has deleted; the upserts alone never deadlock |
| AbuseLocks.SomeoneProceeds | packages/adapters/src/postgres-abuse-protection.ts:93-178 | In every reachable state with an evaluation in flight, some evaluation can start its cleanup, delete its next row, charge its next row or commit, unless there is a cycle of waits |
| AbuseLocks.NoCycle | packages/adapters/src/postgres-abuse-protection.ts:93-147 | With a batch of one, and every later axis's window a multiple of the earlier ones', no reachable state has a cycle of waits |
| AbuseDeadlocks.DeadlockIff | packages/adapters/src/postgres-abuse-protection.ts:93-147 | From any time, for any batch and rules: a cycle of waits is reachable exactly when the batch is more than one and some rule is accepted, or some policy charges an axis before another whose window is no multiple of its own |
| AbuseDeadlocks.ClashDeadlocks | packages/adapters/src/postgres-abuse-protection.ts:95-147 | For all such pairs of axes: an evaluation begun one millisecond before a window of the later axis ends and one begun at its end wait for each other |
| AbuseDeadlocks.BatchesDeadlock | packages/adapters/src/postgres-abuse-protection.ts:95-103 | With a batch of two or more and any accepted rule, two cleanups of the same two rows wait for each other |
| AbuseDeadlocks.AlwaysProceeds | packages/adapters/src/postgres-abuse-protection.ts:93-178 | With a batch of one and nesting windows, some evaluation in flight can take its next step in every reachable state |
| AbuseDeadlocks.TableDeadlocks | apps/web/src/server/abuse-policy.ts:39-120 | With the rules of the policy table a cycle of waits is reachable from any time, whatever the batch |
| AbusePolicy.FrameInjective | apps/web/src/server/abuse-policy.ts:169-187 | Two pairs are hashed from one text exactly when their parts agree up to lone surrogates |
| AbusePolicy.WellFormedPairsNeverCollide | apps/web/src/server/abuse-policy.ts:178-186 | Length framing is injective on well-formed pairs |
| AbusePolicy.LoneSurrogatesCollide | apps/web/src/server/abuse-policy.ts:178-199 | Two different valid subjects, each a lone surrogate, are hashed from one text |
| AbusePolicy.BuiltLimitsConform | apps/web/src/server/abuse-policy.ts:39-120 | Whatever the context, built limits pass the limiter's validation and follow one rule per stored policy name and axis |
| AbusePolicy.StorageKeysDistinct | apps/web/src/server/abuse-policy.ts:122-124 | Different policies have different storage keys |
| AbuseParties.LimitsAreForParties | apps/web/src/server/abuse-policy.ts:100-190 | The limits built for a request limit, on each axis of its policy, exactly the party the request names there, and every required party is named |
| AbuseParties.BuildingIsExact | apps/web/src/server/abuse-policy.ts:100-200 | Limits are built exactly for requests whose texts are plain and whose required parties are named; else the first axis that fails says which |
| AbuseParties.PartiesShareIff | apps/web/src/server/abuse-policy.ts:100-190 | Two requests for one policy share a bucket on an axis exactly when that axis limits the same party in both, in one window, given a hash without collisions |
| Trips.IdsAreUnique | packages/domain/src/trip.ts:198-208 | The loop with the set of seen identifiers answers whether all are different |
| Trips.SortByTimeOrders | packages/domain/src/trip.ts:210-212 | The question sort is in time order |
| Trips.SortByTimePermutes | packages/domain/src/trip.ts:210-212 | The question sort loses and adds nothing |
| Trips.SortByTimeStable | packages/domain/src/trip.ts:210-212 | Questions of one time keep their order |
| TripProjection.AcceptedDraftSound | packages/domain/src/marketplace.ts:61-73 | A draft is accepted only with a schedule and terms the projection would take |
| TripProjection.ProjectionTotal | packages/adapters/src/prisma-marketplace.ts:704-756 | After any run from an accepted draft, with questions and answers added, moderated and hidden, projection succeeds exactly when the six instants lie in the UTC years 0000 to 9999; its questions are a stable time-sorted permutation of the visible ones with unique ids |
| TripProjection.UnprojectableDraft | packages/domain/src/trip.ts:291-338 | On every platform that knows the zone Etc/GMT+12: a draft in the last hour of its year 9999 is accepted and published, and its projection throws |
| TripProjection.TwoZonesKnowsLastDay | packages/domain/src/trip.ts:291-338 | A platform that computes local dates from offsets is one of those: that hour's date there is 9999-12-31 |
| TripAnswers.ValidIsoIff | packages/domain/src/trip.ts:291-338 | Instants are accepted with four-digit years and offsets of at most fourteen hours |
| TripAnswers.SameInstant | packages/domain/src/trip.ts:291-338 | A wall clock and its offset moved together name the same instant |
| TripAnswers.WrittenInstant | packages/adapters/src/prisma-marketplace.ts:713-756 | An instant is written so that it is read back as itself exactly in the years 0000 to 9999 |
| TripAnswers.ScheduleIsExact | packages/domain/src/trip.ts:83-168 | A schedule is refused for the first requirement it does not meet, of labels, route, date, zones, instants, local date and the order of its times, and else accepted |
| TripAnswers.ProjectionIsExact | packages/domain/src/trip.ts:83-269 | A projection is refused for the first requirement it does not meet; else it keeps identifier, instants and capacity, trims its texts, shows each mode once, the first first, and sorts the trimmed questions stably by time |
| TripAnswers.DraftIsExact | packages/domain/src/marketplace.ts:61-73 | Which drafts are accepted and why others are not; an accepted one keeps its texts as sent and its instants, and is version one, unpublished |
| TripAnswers.LifeOfTrip | packages/domain/src/marketplace.ts:75-117 | Over any run a trip is a draft until it is submitted, then pending until the first decision, and that is final: published at that time, losing only the capacity taken, or rejected with the trimmed reason and never published |
| TripAnswers.TimePasses | packages/application/src/marketplace-foundation.ts:493-497 | Time goes on as it is told to unless it leaves the years 0000 to 9999 |
| TripAnswers.AskIsExact | packages/application/src/marketplace-foundation.ts:484-536 | A question is taken exactly for a published trip with texts within bounds under a new identifier, trimmed, at that time; no other question changes |
| TripAnswers.ReplyIsExact | packages/application/src/marketplace-foundation.ts:538-608 | Exactly the first answer to a visible question of a published trip is kept, under the seller's name |
| TripAnswers.QuestionsAreKept | packages/application/src/marketplace-foundation.ts:484-608 | Over any run a question keeps text, author, time and first answer, and is visible exactly until it is hidden |
| TripAnswers.VisibleIsExact | packages/adapters/src/prisma-marketplace.ts:704-711 | The questions listed are the visible ones, each as often as it is stored |
| TripAnswers.ReadIsExact | packages/adapters/src/prisma-marketplace.ts:718-732 | A question is shown as it is stored, with its answer exactly if that is visible |
| TripAnswers.PublicInput | packages/adapters/src/prisma-marketplace.ts:713-756 | What a row hands to the projection: every instant written out, its texts, capacity, modes, terms and questions |
| TripDiscovery.ListingIsExact | packages/adapters/src/in-memory-trip-discovery.ts:17-35 | The listing is the matching trips, each once, by date and identifier |
| DiscoveryAnswers.MatchesIff | packages/adapters/src/in-memory-trip-discovery.ts:17-30 | A trip matches exactly if the destination stands somewhere in its label, both in lower case, and its date is neither before the first date nor after the last by code units |
| DiscoveryAnswers.ListedInOrder | packages/adapters/src/in-memory-trip-discovery.ts:31-35 | The listing is by departure date and then by identifier, as the platform collates them |
| DiscoveryAnswers.CriteriaAreExact | packages/application/src/trip-discovery.ts:43-90 | Criteria are refused for the first check that fails; empty ones ask for nothing, texts are trimmed, and pages hold twenty unless asked |
| DiscoveryAnswers.UnknownCursor | packages/adapters/src/in-memory-trip-discovery.ts:36-42 | A cursor that names no listed trip finds nothing |
| TripDiscovery.NextSlice | packages/adapters/src/in-memory-trip-discovery.ts:36-47 | A page has a next cursor exactly when it is full, and that cursor finds exactly the page after it |
| TripDiscovery.AnswerIsNext | packages/application/src/trip-discovery.ts:43-77 | The cursor sent back and normalised again finds the next page of the same listing |
| TripDiscovery.WalkCoversListing | apps/web/src/app/api/trips/route.ts:39-43 | For any accepted criteria, following cursors to the end gives the whole listing without gap or duplicate in listing / limit + 1 requests |
| TripDiscovery.ChainEnds | apps/web/src/app/api/trips/route.ts:39-43 | From any page a client can go on to one without a next cursor, in at most listing / limit + 1 pages |
| OrderTerms.NormalizeIdempotent | packages/domain/src/order-request.ts:66-139 | Normalising normalised terms changes nothing, and normalising keeps the requested capacity |
| OrderTerms.NormalizeIsExact | packages/domain/src/order-request.ts:66-139 | Terms are refused for the first check that fails; else the texts are trimmed and every other field survives |
| OrderTerms.RowIsExact | packages/adapters/src/prisma-marketplace.ts:270-310 | Which requests have a row, and every column of it: weights in hundredths of a kilogram, texts as UTF-8, the columns of the other mode empty |
| OrderTerms.ReadIsExact | packages/adapters/src/prisma-marketplace.ts:758-835 | Which rows are read, and every field of what is read |
| OrderTerms.StorageRoundTrip | packages/adapters/src/prisma-marketplace.ts:270-310 | A request with normalised terms reads back, its lone surrogates replaced, exactly when its mode is that of its terms and shopping reserves what it asked for; as itself exactly when besides its texts have no lone surrogates |
| OrderTerms.ScrubTermsKeepsWellFormed | packages/adapters/src/prisma-marketplace.ts:270-310 | Storing changes the terms exactly when one of their texts has a lone surrogate |
| OrderTerms.FingerprintIff | packages/application/src/marketplace-foundation.ts:821-831 | Two submissions have one fingerprint text exactly when trip and terms are equal |
| Capacity.CapacityIsExact | packages/application/src/marketplace-foundation.ts:798-809 | Two correct roundings of any storable capacity still give its exact grams; the representability check never throws |
| Capacity.ReadsAsGramsIff | packages/application/src/marketplace-foundation.ts:798-809 | A capacity is read exactly if it is not negative and within a millionth of a safe integer of grams, and as that integer |
| Capacity.CapacityChecksAgree | packages/application/src/marketplace-foundation.ts:666-669 | The in-memory capacity comparison agrees with the guard of the update |
| Capacity.SavedCapacityIsUnchanged | packages/adapters/src/prisma-marketplace.ts:633-693 | The capacity read as a double and written back by a whole-row save rounds to the stored value again |
| OrderSubmission.BuiltIsStorable | packages/adapters/src/prisma-marketplace.ts:270-310 | Every order built from normalised terms has a row, reserves exactly the grams that were requested, and reads back as its stored form |
| OrderSubmission.CharactersCount | packages/adapters/prisma/migrations/20260811070000_order_submission_capacity/migration.sql:39-80 | A text has as many characters for the database as units, less one for each surrogate pair |
| OrderSubmission.OrderTableRefuses | packages/adapters/prisma/migrations/20260811070000_order_submission_capacity/migration.sql:39-80 | On an eligible, sound trip the order table refuses a built order exactly for instant arrival or too few characters |
| OrderSubmission.InstantTripsTakeNoOrders | packages/adapters/prisma/migrations/20260811070000_order_submission_capacity/migration.sql:43-47 | No submission succeeds on a trip that arrives when it departs |
| OrderSubmission.AloneNeverOvertaken | packages/adapters/src/prisma-marketplace.ts:153-203 | Without interference the unique key and the deletion of the expired result never conflict |
| OrderSubmission.RetriesAreAtomic | packages/adapters/src/prisma-marketplace.ts:52-69 | The link for `Execute`: the retry loop over one undisturbed database leaves it untouched with a refusal, or as exactly one whole submission leaves it; `OrderCalls` has the loop among other calls |
| OrderSubmission.MarketplaceDatabase.ClaimSlot | packages/adapters/src/prisma-marketplace.ts:153-203 | The link for `claim`: its reply and the deletion of exactly an expired result, in progress when the key's lock is taken; what the reply is, is stated by `OrderAnswers.LockedAttempt` |
| OrderSubmission.MarketplaceDatabase.ReserveCapacity | packages/adapters/src/prisma-marketplace.ts:205-249 | The guarded decrement with version increment, or nothing |
| OrderSubmission.MarketplaceDatabase.SaveOffer | packages/adapters/src/prisma-marketplace.ts:470-479 | The whole row is written exactly when the version is the expected one |
| OrderSubmission.MarketplaceDatabase.CreateOrder | packages/adapters/src/prisma-marketplace.ts:270-310 | The row is inserted exactly when its columns pass the checks and its identifier is new, and which of the two failed |
| OrderSubmission.MarketplaceDatabase.SubmitOrder | packages/application/src/marketplace-foundation.ts:634-736 | One transaction, from the actor check and the key lock on, statement by statement, equals the submission as one atomic operation, rolled back on every refusal |
| OrderSubmission.MarketplaceDatabase.Execute | packages/adapters/src/prisma-marketplace.ts:52-69 | The loop tries again only after a write conflict or a unique-key conflict, at most three attempts, and keeps only the deciding one |
| OrderSubmission.MarketplaceDatabase.SubmitOrderRequest | packages/application/src/marketplace-foundation.ts:612-634 | Invalid terms are refused before any transaction; otherwise the loop runs for the normalised terms and their fingerprint |
| OrderTheorems.CommitIsAtomic | packages/application/src/marketplace-foundation.ts:651-735 | A commit after stale reads has the effect and, unless its answer is lost, the answer of the whole use case run alone at that instant |
| OrderTheorems.EditIsAtomic | packages/adapters/src/prisma-marketplace.ts:470-479 | A saved whole-row write is the same edit of the current row |
| OrderTheorems.StepRefines | packages/application/src/marketplace-foundation.ts:634-736 | Every step leaves the tables alone or is one whole operation on them |
| OrderTheorems.RunRefines | packages/application/src/marketplace-foundation.ts:634-736 | Any interleaving leaves the tables as its operations one after another would |
| OrderTheorems.CapacityIsConserved | packages/adapters/src/prisma-marketplace.ts:235-249 | After any run, remaining plus reserved capacity is the draft's capacity, and neither is negative |
| OrderTheorems.VersionDeterminesContent | packages/adapters/src/prisma-marketplace.ts:470-479 | Two observations of a trip with one version saw the same row |
| OrderTheorems.VersionsCountOrders | packages/domain/src/marketplace.ts:61-117 | A published trip with n orders has version 3 + n and source versions exactly 3 to n + 2 |
| OrderTheorems.OrdersMatchTheirTrips | packages/application/src/marketplace-foundation.ts:680-698 | Every order keeps for ever the columns of the open, published row it was taken from, which had room for it |
| OrderTheorems.KeysAreDurable | packages/adapters/src/prisma-marketplace.ts:312-326 | One stored result per customer and key, for their latest existing order; orders under one key are seven days apart |
| OrderTheorems.KeysAreExclusive | packages/adapters/src/prisma-marketplace.ts:156-165 | At most one attempt holds a key in every reachable state, from its lock to the end of its transaction, whatever it answers; this follows from the lock step's own test and the release at every end of an attempt |
| OrderReplays.AnswersAreTheSameRequest | packages/application/src/marketplace-foundation.ts:638-649 | In every interleaving a created or replayed answer is, itself or as stored, a request created under the same customer and key for the same trip and terms; its row reads back as stored, and the terms answered are those asked for unless a replay had lone surrogates |
| OrderCalls.OneOrderPerCall | packages/adapters/src/prisma-marketplace.ts:52-69 | In every interleaving each order belongs to its own call, which was answered with it unless the answer was lost; a call answered with a created request placed exactly that one, and every other call none |
| OrderCalls.AttemptsAreBounded | packages/adapters/src/prisma-marketplace.ts:52-69 | In every interleaving a call makes at most three attempts, and gives up only after all three |
| OrderCalls.OneAttemptAnswers | packages/adapters/src/prisma-marketplace.ts:52-69 | In every interleaving one attempt gives a call its answer: that of the whole use case run alone at its commit or at its reads, or the refusal of the lock, of a guard, or of the third conflict; every other step of the call leaves the tables alone |
| OrderAnswers.LockedAttempt | packages/adapters/src/prisma-marketplace.ts:153-203 | Over all runs: an attempt that read less than seven days after the latest order under its customer and key leaves with that order in its stored form if the fingerprints agree, and with a conflict exactly if they differ; otherwise its key lets it go on and the trip it read decides; the tables stay as they are |
| OrderAnswers.StartIsExact | packages/adapters/src/prisma-marketplace.ts:52-69 | A new call makes its first attempt at once and a waiting one the next, with fresh reads and the identifier it is given |
| OrderAnswers.LockedOut | packages/adapters/src/prisma-marketplace.ts:156-167 | While another call holds its key an attempt is told so, and writes nothing |
| OrderAnswers.RepeatsAreReplayed | packages/application/src/marketplace-foundation.ts:618-649 | For prepared commands: the same trip and terms repeated within seven days are answered with the stored order, others under the key with a conflict |
| OrderAnswers.LeavesWithIt | packages/application/src/marketplace-foundation.ts:645-653 | That answer is given whatever other calls do meanwhile, and nothing is written |
| OrderAnswers.CommitIsExact | packages/application/src/marketplace-foundation.ts:655-735 | Over all runs of prepared commands: exactly when an attempt places its order and for which guard it is refused, in their order; the request, row, reservation and result it writes, field by field, and that a refusal writes nothing |
| OrderAnswers.TakenIff | packages/adapters/prisma/migrations/20260811070000_order_submission_capacity/migration.sql:39-80 | Any request at all is taken by the order table exactly under these conditions on its fields |
| OrderAnswers.AloneIsExact | packages/application/src/marketplace-foundation.ts:634-736 | The same for one submission alone on any tables, which reads at one time and reserves at another |
| OrderAnswers.AttemptIsExact | packages/application/src/marketplace-foundation.ts:635-661 | Without its actor's session or its key's lock an attempt answers so and writes nothing |
| OrderAnswers.EditIsExact | packages/domain/src/marketplace.ts:75-117 | An edit is saved exactly if it may be made and the row it was made from is still the trip's row; the row it leaves, and nothing else |
| OrderAnswers.DecisionsAreFinal | packages/domain/src/marketplace.ts:81-117 | In every run a rejected trip's row never changes again, so it is never published; a published trip stays published and changes only in version and capacity |
| OrderInvariants.InvStep | packages/application/src/marketplace-foundation.ts:634-736 | Every step keeps conservation, versions, snapshots, stored results, spacing and lock exclusion |
| OrderRuns.AcceptedOffersAreDrafts | packages/domain/src/marketplace.ts:61-73 | What draft creation accepts is a version 1 draft with nonnegative capacity |
| Evidence.RecordKeyInjective | packages/adapters/src/in-memory-evidence-lifecycle.ts:714-716 | Validated owners and identifiers never share a record key |
| Evidence.InMemoryEvidenceLifecycle.CreateIntent | packages/adapters/src/in-memory-evidence-lifecycle.ts:158-202 | The creation body: an existing intent again, or a new record under the next reference |
| Evidence.InMemoryEvidenceLifecycle.UploadToQuarantine | packages/adapters/src/in-memory-evidence-lifecycle.ts:206-226 | Content is written once, before expiry, or refused with the store unchanged |
| Evidence.InMemoryEvidenceLifecycle.RecordScanResult | packages/adapters/src/in-memory-evidence-lifecycle.ts:228-267 | A scan is recorded only for quarantined content and with a digest exactly when it completed |
| Evidence.InMemoryEvidenceLifecycle.Accept | packages/adapters/src/in-memory-evidence-lifecycle.ts:296-352 | The acceptance body verifies again, then moves the content to the private store under the next reference |
| Evidence.InMemoryEvidenceLifecycle.DeleteExpired | packages/adapters/src/in-memory-evidence-lifecycle.ts:407-421 | The link for the deletion body: store and answer are those of its transition, which `EvidenceAnswers.DeletionIsExact` states outright |
| EvidenceRuns.InvStep | packages/adapters/src/in-memory-evidence-lifecycle.ts:122-423 | Every arrival, body, upload, scan and passing of time keeps the maps, records and references consistent |
| EvidenceTheorems.PrivateStoreIsExact | packages/adapters/src/in-memory-evidence-lifecycle.ts:344-349 | The private store holds exactly the objects of accepted, undeleted evidence, each its own record's content |
| EvidenceTheorems.AcceptedIsTheUpload | packages/adapters/src/in-memory-evidence-lifecycle.ts:296-352 | Accepted evidence is the one upload ever written, in time, within limits, of an allowed type, with a clean scan of that digest |
| EvidenceTheorems.RetentionHolds | packages/adapters/src/in-memory-evidence-lifecycle.ts:384-420 | Deletion never precedes acceptance plus retention, whatever waited in between |
| EvidenceTheorems.DeletedStaysDeleted | packages/adapters/src/in-memory-evidence-lifecycle.ts:407-421 | Acceptance and deletion are final and a deleted object's reference never names anything else |
| EvidenceTheorems.ReferencesAreNeverReused | packages/adapters/src/in-memory-evidence-lifecycle.ts:165-170 | Issued references keep their meaning for ever and are of one kind only |
| EvidenceTheorems.ContentRejectionIsFinal | packages/adapters/src/in-memory-evidence-lifecycle.ts:451-504 | Expired, empty, oversized or unsupported evidence stays rejected for that reason and is never accepted |
| EvidenceTheorems.CleanRescanVerifies | packages/adapters/src/in-memory-evidence-lifecycle.ts:525-551 | A scan rejection or digest mismatch is undone by one clean scan of the same bytes |
| EvidenceAnswers.PolicyIff | packages/adapters/src/in-memory-evidence-lifecycle.ts:656-703 | Which policies are accepted |
| EvidenceAnswers.MediaTypeIff | packages/adapters/src/in-memory-evidence-lifecycle.ts:752-780 | A content has a type exactly when it starts with that type's signature |
| EvidenceAnswers.StatusIff | packages/adapters/src/in-memory-evidence-lifecycle.ts:429-551 | Each status of a record, and its reason, exactly under a condition on its fields |
| EvidenceAnswers.RunsAreCalls | packages/adapters/src/in-memory-evidence-lifecycle.ts:122-423 | A run is its steps one after another; a call waits exactly if its check lets it in, and its body then changes the store as it is stated to |
| EvidenceAnswers.CreationIsExact | packages/adapters/src/in-memory-evidence-lifecycle.ts:122-204 | In every reachable state: which creations are let in, and whether the body answers an existing intent, makes a record under a reference never used before, or fails |
| EvidenceAnswers.UploadIsExact | packages/adapters/src/in-memory-evidence-lifecycle.ts:206-226 | In every reachable state content is taken exactly once, before its intent expires; which refusal otherwise, and nothing else changes |
| EvidenceAnswers.ScanIsExact | packages/adapters/src/in-memory-evidence-lifecycle.ts:228-267 | In every reachable state a scan is recorded exactly for content in quarantine, if it fits, and nothing else changes |
| EvidenceAnswers.AcceptanceIsLetIn | packages/adapters/src/in-memory-evidence-lifecycle.ts:273-295 | An acceptance is let in exactly for named evidence that is accepted and kept, or that has passed |
| EvidenceAnswers.AcceptanceIsExact | packages/adapters/src/in-memory-evidence-lifecycle.ts:296-352 | In every reachable state the body answers an earlier acceptance, moves content that has passed under a reference never used before, or fails; what it leaves, field by field |
| EvidenceAnswers.DeletionIsLetIn | packages/adapters/src/in-memory-evidence-lifecycle.ts:356-393 | In every reachable state a deletion is let in exactly for evidence deleted under this reference before, or kept under it with its retention over |
| EvidenceAnswers.DeletionIsExact | packages/adapters/src/in-memory-evidence-lifecycle.ts:407-421 | A deletion that was let in, run at any writable time, leaves its record deleted, at this time unless it was before, which is answered again; its object is gone in every later state, and every other object and record stays |

## Left out

- AbuseProtection.PostgresAbuseProtection.EvaluateRequest: the method runs alone; evaluations interleave in `AbuseRuns`.
- OrderSubmission.MarketplaceDatabase.Execute: the attempts of the method see one database that nobody else changes; calls interleave in `OrderRuns`.
- OrderCalls.OneAttemptAnswers: the actor check in front of an attempt's claim is not in the runs; an attempt that fails it is answered and writes nothing.
- OrderTerms.NormalizeIdempotent: terms are typed; run-time type checks of untyped input are not modelled.
- Capacity.CapacityIsExact: uses only the error bound of correct rounding over the reals, not the digits a double has.
- OrderTheorems.KeysAreExclusive: keys are locked by identity; the 64-bit hash behind the database lock may also refuse an unrelated key.
- EvidenceTheorems.PrivateStoreIsExact: record objects are values in a map, so aliasing between a captured record and the map is not visible; the order in which bodies run is wider than the idempotency protocol allows.
- TripProjection.ProjectionTotal: ratings are left out; reservations in this machine carry no order, which `OrderRuns` adds.
- Sessions: the order of the listed sessions, and tokens and HMACs, which are row positions here. A token of the wrong shape is an unknown one.
- Idempotency: whether a result can be cloned is a parameter, and a clone is equal to its original, since values cannot be mutated.
- Actor checks of the use cases (session, account status, capability, assurance) other than ownership: single decisions made before the modelled part; `OrderSubmission` takes their answer as a parameter.
- Audit and outbox rows of the use cases: written in the same transactions, never read by the modelled code.
- HTTP routes, cookies, headers and pages; only the next-cursor expression is modelled.
- Google identity, OAuth attempts, profiles and payment protection: single decision chains or single guarded writes.
- Mock payment and logistics gateways: thin wrappers over the idempotency protocol.
- The database-backed trip search: the in-memory search is modelled in its place, and the SQL ordering and cursor are not.
- Governance scripts and configuration.
