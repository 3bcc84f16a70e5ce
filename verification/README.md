# wruntime, modelled and proved in Dafny

wruntime runs WebAssembly modules on engines that share a PostgreSQL job queue, behind managers and proxies that
exchange signed-off policies, deployments and snapshots.  This project models the parts of it where correctness is a
property of whole runs, of every interleaving, of every input or of every way to cut an input, and proves those
properties.  `dafny verify dfyconfig.toml` checks all of it.

| files | part of the system |
|---|---|
| `JobQueue`, `QueueSafety`, `JobTable`, `JobListing`, `CursorSharing` | the durable job queue: any number of engines and recovery coordinators on one table, and keyset paging through it |
| `AdmissionGate` | the lock-free gate that drains an engine |
| `Snapshot`, `SnapshotAgreement`, `SnapshotConsumer`, `SnapshotConflict` | workload snapshots: producer, decoder and fail-closed consumer |
| `PolicyEncoding`, `AuthorizationPolicy`, `Declarations` | the authorization policy: loading, canonical bytes, rollouts |
| `DeploymentContract` | canonical deployment inventories and revision identity |
| `MigrationBundle`, `SqlScan` | migration bundles and the scanner for top-level SQL statements |
| `Sse`, `EventBlock`, `StreamTask`, `CodeStream` | the event-stream parser, its reading of one frame, and the producer that feeds a guest |
| `TaskGroup` | ownership of named tasks up to the shutdown report |
| `Identity`, `Naming`, `Blobstore` | names, derived storage names and blob keys |
| `Ordering`, `Encoding`, `Text` | lexicographic orders and stable sorting, length-prefixed encodings, UTF-8 and search |

Code that updates state in place is a class or a method with loops, proved equal to a specification function; the
theorems are about those functions, about runs of them, or about all inputs of them.

## Assumptions

- Each SQL statement of the queue is one atomic step.  Job ids and claim ids are fresh, and `now()` does not go back.
  Rows skipped by `SKIP LOCKED` are an arbitrary set in each step.
- The gate's atomic operations interleave sequentially consistently, and fewer activities exist than a `usize` counts.
- SHA-256 is a parameter and may be any function to 32 bytes.  Where a digest should identify something, the theorem says
  that it does or that two named pre-images collide.
- Foreign codecs and parsers are parameters: JSON for stream payloads; JSON, base64 and RFC 3339 for cursors (with a
  round trip; texts of times are not empty, plain, and tell times apart); protobuf for snapshots (with a round trip on
  what its fields can hold, and protobuf's own lengths); semantic versions; canonical HTTPS addresses.
- A runtime task id is not given to a new task before the old holder is joined, and the runtime joins each task once.
- `usize` has 64 bits.

## What turned out not to hold

Each of these is a lemma with a witness, next to the exact condition under which the property does hold.

- `insert_job` does not count the 36 bytes of the job id that `list_item` counts, so it accepts rows that can never be
  listed: `AcceptedButUnlistable`, with `InsertedRowListable` and `ReachableRowsPassChecks` for the exact condition.
- `feed` drops the events it has already decoded when a later frame of the same chunk is not UTF-8, so for such streams
  the cut into chunks can matter: `StreamWithCutThatMatters`, and `CutsNeverMatterExactly` and
  `CodeCutsNeverMatterExactly` for the exact condition.
- A valid snapshot of a lower generation forgets a same-generation conflict: `PublishedConflictForgotten` for any three
  loaded policies, `ConflictingPolicies` for such policies, and `ConflictForgottenExactly` for the exact condition.
- `module_schema` is documented as collision-safe for accepted names; `SchemaCollides` shows two accepted pairs with one
  schema, and `SchemaSharedExactly` says which pairs share theirs.
- `parse_version` refuses leading zeros but not behind a plus sign: `PlusIsNotCanonical`, and `VersionCanonicalExactly`
  for the exact condition.
- The gate stays drained only while nobody opens it again: `ReopenedGateAdmits` after every open, and
  `DrainFinalExactly` for the exact condition.
- A listing cursor is meant for one query, but the fingerprint joins the filter's fields with U+001F, which a field may
  contain: `FingerprintsCollide`; `CursorAcceptedExactly` for the exact condition on two queries, and `CursorSharedExactly`
  for the exact condition on one.  A separator alone is not enough: a namespace that only starts with one, for instance,
  cannot give it to the name without being empty itself.

Checks that can never decide are shown to be redundant: the second silent return of `consume`
(`SecondSilentReturnUnreachable`), the byte comparison of `PrincipalUri::parse` (`ComparisonRedundant`), the two duplicate
sets of bundle validation (`DuplicatesAreDisorder`) and the snapshot size limit at load time (`SmallFits`).

## Model

| member | source | states |
|---|---|---|
| JobQueue.StepKeepsInvariant | wr-engine/src/worker.rs:146-259 | every statement of every engine keeps the row, history and claim invariants together |
| JobQueue.StaleMessageAdmissible | wr-engine/src/worker.rs:236-259 | the stale-recovery message is never empty and within the error limit after truncation, at up to 4 bytes per character |
| QueueSafety.ReachableRowsPassChecks | wr-engine/src/job_admin_queue.rs:276-466 | in every reachable state a row is listed iff its metadata leaves room for the job id, and its detail is served iff moreover a running row names an engine; pending rows have attempts left, dead rows none and an error |
| QueueSafety.ReachableDetailsServed | wr-engine/src/job_admin_queue.rs:346-466 | when engines have names, as their UUIDs are, in every reachable state a detail is served iff the metadata leaves room for the job id |
| QueueSafety.InsertedRowListable | wr-engine/src/worker.rs:20-80 | an accepted submission can be listed iff its metadata is 36 bytes below the limit |
| QueueSafety.AcceptedButUnlistable | wr-engine/src/job_admin_queue.rs:276-328 | a submission that is accepted and whose row can never be listed |
| QueueSafety.RetryExactly | wr-engine/src/job_admin_queue.rs:576-614 | in every reachable state a retry succeeds iff the row is dead and listable, and otherwise changes nothing |
| QueueSafety.FinalizationFenced | wr-engine/src/worker.rs:181-233 | a completion or failure changes the table iff its claim is the active one and its content admissible |
| QueueSafety.ClaimsEndOnce | wr-engine/src/worker.rs:134-259 | over a whole run a claim is issued at most once, for one job, ended at most once by completion, failure or recovery, and active exactly in between |
| QueueSafety.ClaimsConserved | wr-engine/src/worker.rs:146-259 | per job, claims issued = applied finalizations + recoveries + 1 while it runs |
| QueueSafety.DeliveryBounded | wr-engine/src/worker.rs:146-259 | the attempt column counts the claims since insertion or the last retry, and all claims are at most max_attempts x (1 + retries) |
| QueueSafety.CompleteRowsFrozen | wr-engine/src/worker.rs:181-259 | no later step of any engine changes a complete row |
| QueueSafety.StepKeepsIdentity | wr-engine/src/worker.rs:157-254 | no step deletes a row or changes created_at or a filter column; a new row is created now |
| QueueSafety.RecoveryExact | wr-engine/src/worker.rs:236-259 | in every run a recovery stops exactly the unlocked rows whose lease is over, and repeating it at once changes nothing |
| JobTable.Jobs.InsertJob | wr-engine/src/worker.rs:20-80 | the in-place insertion is the specified step, and its error is exactly inadmissibility |
| JobTable.Jobs.ClaimJob | wr-engine/src/worker.rs:146-178 | the claimed row is an oldest eligible one, the new table is the specified step, and the returned claim is the active one |
| JobTable.Jobs.CompleteJob | wr-engine/src/worker.rs:181-202 | applied iff the claim is active, and the table is the specified step |
| JobTable.Jobs.FailJob | wr-engine/src/worker.rs:205-233 | applied iff the claim is active, and the table is the specified step |
| JobTable.Jobs.RecoverStaleJobs | wr-engine/src/worker.rs:236-259 | the loop over expired rows is the specified step, and the count is the number of expired rows |
| JobTable.Jobs.RetryDeadJob | wr-engine/src/job_admin_queue.rs:576-614 | a retry whose detail check fails leaves the table as it was |
| JobListing.CursorRoundTrip | wr-engine/src/job_admin_queue.rs:180-215 | a cursor decodes to the key it was made from under every query with its fingerprint, and is refused under every other |
| JobListing.NormalizedSameExactly | wr-engine/src/job_admin_queue.rs:58-77 | two queries have one fingerprinted text iff their nine fields have the same parts between separators |
| JobListing.NormalizedInjective | wr-engine/src/job_admin_queue.rs:58-77 | a query without a separator in its fields has the text of another iff all fields agree |
| JobListing.CursorAcceptedExactly | wr-engine/src/job_admin_queue.rs:58-215 | a cursor issued for one query is accepted by another iff their fields have the same parts or the two texts collide |
| CursorSharing.CursorSharedExactly | wr-engine/src/job_admin_queue.rs:30-77 | a valid query shares its fingerprinted text with another valid query iff a separator in one of its fields can move to another field and leave the filter valid, by a condition on its own texts |
| CursorSharing.SeparatorNotEnough | wr-engine/src/job_admin_queue.rs:30-77 | a filter on a worker namespace that starts with its only separator shares its text with no other valid query |
| CursorSharing.FingerprintsCollide | wr-engine/src/job_admin_queue.rs:58-77 | the exception: for any b and non-empty a and c two valid, different filters with one text |
| JobListing.KeyScanRefines | wr-engine/src/job_admin_queue.rs:468-523 | a keyset scan of growing sets, with strictly newer arrivals, concatenates to the sorted first set and ends |
| JobListing.ScanComplete | wr-engine/src/job_admin_queue.rs:468-523 | a finished scan lists every job matching at the first request exactly once, newest first, for any page sizes and any concurrent steps |
| JobListing.ScanRefinesListing | wr-engine/src/job_admin_queue.rs:225-253 | when later insertions are strictly newer the pages are exactly one sorted listing, in at most one page more than rows |
| JobListing.LiveScan | wr-engine/src/job_admin_queue.rs:468-523 | the same for pages served from any later states of any run of the queue |
| AdmissionGate.CounterExact | wr-common/src/lifecycle_service.rs:67-99 | in every interleaving the counter is the number of guards and of entrants before a possible leave, and never underflows or overflows |
| AdmissionGate.NoLostWakeup | wr-common/src/lifecycle_service.rs:79-99 | a waiter parked at zero has been notified or somebody is between the decrement to zero and its notification |
| AdmissionGate.QuietWaitersWake | wr-common/src/lifecycle_service.rs:79-99 | when nobody else moves, every parked waiter can wake: it never sleeps over an idle gate |
| AdmissionGate.DrainIsFinal | wr-common/src/lifecycle_service.rs:51-99 | once a waiter reads zero after a close with no later open, no guard is live then or later and no more work is done |
| AdmissionGate.ReopenedGateAdmits | wr-common/src/lifecycle_service.rs:47-77 | from every open of every run, whatever was closed and drained before, a run goes on to a new live guard |
| AdmissionGate.DrainFinalExactly | wr-common/src/lifecycle_service.rs:47-99 | after a close and a drained read an admission can follow some moment of the run iff the gate was opened again |
| Snapshot.ProjectionDetermines | wr-common/src/snapshot_consumer.rs:58-76 | the hashed projection bytes determine schema, kind, cluster, generation, policy digest, enrollments and revocations |
| Snapshot.IndexEnrollments | wr-common/src/snapshot_consumer.rs:214-239 | the loop accepts iff every enrollment is valid and the list strictly ascending, and builds the map of all insertions |
| Snapshot.IndexRevocations | wr-common/src/snapshot_consumer.rs:240-248 | the loop accepts iff every fingerprint is valid and the list strictly ascending, and collects exactly its elements |
| Snapshot.DecodeSnapshot | wr-common/src/snapshot_consumer.rs:165-279 | decoding, loop by loop, is the specified function of bytes, cluster, projection and wall time |
| SnapshotAgreement.SmallFits | wr-common/src/snapshot_consumer.rs:133-137 | within the policy caps the encoded snapshot is always below 2 MiB |
| SnapshotAgreement.LoadedPublishable | wr-common/src/authorization_policy.rs:344-522 | the enrollments of a loaded policy are valid, of its cluster and kind, distinct, within the caps, its revocations ascending |
| SnapshotAgreement.ProducerConsumerAgree | wr-common/src/snapshot_consumer.rs:78-279 | for every loaded policy building at t succeeds, the bytes decode iff the wall time is in [t-5s, t+30s) and not before the epoch, and the result admits exactly the enrolled principals with unrevoked leaves |
| SnapshotConsumer.Consumer.Consume | wr-common/src/snapshot_consumer.rs:336-414 | consuming in place, with all its early returns, is the specified transition |
| SnapshotConsumer.FreshExactlyWhenAccepted | wr-common/src/snapshot_consumer.rs:345-414 | an input leaves the state fresh iff it is valid and first, of a higher generation, or identical and not after a conflict; otherwise nothing is fresh at any time |
| SnapshotConsumer.RetainedNeverLost | wr-common/src/snapshot_consumer.rs:323-404 | between any two moments of any run the retained snapshot is not lost, its generation does not decrease, its identity is fixed per generation |
| SnapshotConsumer.AdmissionsFixedPerGeneration | wr-common/src/snapshot_consumer.rs:139-161 | for whatever bytes a consumer is fed, the admitted set depends on the retained generation only, or the hashed texts of the two snapshots collide |
| SnapshotConsumer.RunBlocksProperly | wr-common/src/snapshot_consumer.rs:361-376 | in every run, blocked without a snapshot iff the recovery predicate is AnyCompleteValid |
| SnapshotConsumer.ConflictStands | wr-common/src/snapshot_consumer.rs:385-397 | without a lower or a higher generation a conflict stands whatever arrives |
| SnapshotConsumer.ConflictNeedsHigher | wr-common/src/snapshot_consumer.rs:385-397 | in a run without a lower generation the next fresh state after a conflict has a strictly higher generation |
| SnapshotConflict.PublishedConflictForgotten | wr-common/src/snapshot_consumer.rs:377-384 | the exception: served two different loaded policies of one generation, then one of a lower, then the first again, a consumer is blocked and in the end fresh at the old generation, or the policies' bytes collide |
| SnapshotConflict.ConflictingPolicies | wr-common/src/snapshot_consumer.rs:377-384 | for every cluster and every generation from 2 on, three such policies load |
| SnapshotConsumer.ConflictForgottenExactly | wr-common/src/snapshot_consumer.rs:357-404 | in a run without a higher generation something becomes fresh after a conflict iff a lower generation is followed by the retained identity with no new conflict in between |
| SnapshotConsumer.SecondSilentReturnUnreachable | wr-common/src/snapshot_consumer.rs:398-403 | the second silent return is never taken |
| SnapshotConsumer.BudgetBound | wr-common/src/snapshot_consumer.rs:405-413 | an accepted snapshot gets a budget in (0, 30s] that ends no later than it does |
| SnapshotConsumer.FreshMeansValid | wr-common/src/snapshot_consumer.rs:306-322 | for whatever a consumer is fed on clocks that advance equally, fresh at any time means before valid_until, whatever the issuer's skew |
| PolicyEncoding.PolicyReadsBack | wr-common/src/authorization_policy.rs:524-563 | canonical policy bytes are equal iff every field of the policies is |
| PolicyEncoding.WritePolicy | wr-common/src/authorization_policy.rs:524-563 | the buffer that the loops push is the canonical encoding, and fails iff a length does not fit |
| PolicyEncoding.SetHashIdentity | wr-common/src/authorization_policy.rs:284-300 | manager-set pre-images are equal iff the two lists are reorderings of each other |
| PolicyEncoding.ManagerSetBytes | wr-common/src/authorization_policy.rs:284-300 | sorting, comparing neighbours and pushing gives that pre-image, and fails iff ids repeat or a length does not fit |
| AuthorizationPolicy.Load | wr-common/src/authorization_policy.rs:303-567 | the loader with its loops, counters and sets accepts exactly the declared condition and returns the canonical policy |
| AuthorizationPolicy.LoadIgnoresOrder | wr-common/src/authorization_policy.rs:344-563 | acceptance and result are the same for every order of every list of the source, inside assignments too |
| AuthorizationPolicy.LoadedSorted | wr-common/src/authorization_policy.rs:430-505 | every list of a loaded policy is strictly ascending in its own order |
| AuthorizationPolicy.RepeatedKeyIsRepeatedAssignment | wr-common/src/authorization_policy.rs:430-434 | the sort key of assignments repeats iff an assignment does, absent sets included |
| AuthorizationPolicy.LoadedRolloutHash | wr-common/src/authorization_policy.rs:644-699 | an accepted rollout records the set hash of the caller's own list in any order, and every order is accepted |
| DeploymentContract.CanonicalizeInventory | wr-common/src/deployment_contract.rs:41-151 | the loops with their sets, totals and sorts compute the specified canonical form or refuse |
| DeploymentContract.CanonicalIgnoresOrder | wr-common/src/deployment_contract.rs:41-151 | acceptance and result are invariant under reordering engines, modules, secrets and databases |
| DeploymentContract.CanonicalReorders | wr-common/src/deployment_contract.rs:89-146 | the canonical form is itself a reordering of the input: nothing is lost or added |
| DeploymentContract.CanonicalIdempotent | wr-common/src/deployment_contract.rs:41-151 | canonicalizing twice changes nothing |
| DeploymentContract.CanonicalSorted | wr-common/src/deployment_contract.rs:89-146 | the canonical form is strictly ascending by slot and inside every engine |
| DeploymentContract.RevisionIdentity | wr-common/src/deployment_contract.rs:153-203 | two valid inputs give the same hashed bytes iff node, revision, bundle digest and canonical inventory are equal |
| DeploymentContract.DigestIdentity | wr-common/src/deployment_contract.rs:153-203 | the digest texts are equal iff these four are or the two hashed texts collide |
| DeploymentContract.RevisionDigest | wr-common/src/deployment_contract.rs:153-203 | the nested push loops hash exactly those bytes, and fail iff the input is invalid or a length does not fit |
| MigrationBundle.FilesAccepted | wr-common/src/migration_bundle.rs:104-152 | the loop with its sets, counts, total and previous key accepts iff all files are valid, within the limits and strictly ascending |
| MigrationBundle.DuplicatesAreDisorder | wr-common/src/migration_bundle.rs:133-150 | a file with a known identity or name never comes after the last one, so the two duplicate sets never decide |
| MigrationBundle.Validate | wr-common/src/migration_bundle.rs:96-156 | validation accepts exactly the declared condition, digest included |
| MigrationBundle.PreimageDetermines | wr-common/src/migration_bundle.rs:158-181 | the bundle pre-image is equal iff format, deployment digest, limits and files are, although no file count is written |
| MigrationBundle.ComputedDigest | wr-common/src/migration_bundle.rs:158-181 | the loop that feeds the hash feeds exactly that pre-image |
| MigrationBundle.DigestIdentifiesBundle | wr-common/src/migration_bundle.rs:152-156 | accepted manifests have one bundle digest iff they are equal or their pre-images collide |
| MigrationBundle.CaptureSucceedsExactly | wr-common/src/migration_bundle.rs:275-299 | capturing succeeds iff the files, in any order, are valid, within limits and of distinct identities |
| MigrationBundle.CaptureIgnoresOrder | wr-common/src/migration_bundle.rs:275-299 | the captured bundle does not depend on the directory order |
| MigrationBundle.AcceptedNameIsOneComponent | wr-common/src/migration_bundle.rs:326-336 | a file name with a version is a single path component, so the separate check never decides |
| MigrationBundle.VersionCanonicalExactly | wr-common/src/migration_bundle.rs:338-361 | the spelling of an accepted version is the decimal of its number iff it has no plus sign |
| MigrationBundle.PlusIsNotCanonical | wr-common/src/migration_bundle.rs:338-361 | with a plus sign any number of leading zeros is accepted |
| SqlScan.ScanNewline | wr-common/src/migration_bundle.rs:384-465 | after text that scans, a newline leaves nothing open, so scanning goes on as if anew |
| SqlScan.ScanConcatenates | wr-common/src/migration_bundle.rs:384-465 | scripts joined by newline and semicolon scan to their statements one after the other, and fail iff the second does |
| SqlScan.RefusalComposes | wr-common/src/migration_bundle.rs:365-382 | the joined script is refused iff a part is, with the reason found first |
| SqlScan.QuoteHasContent | wr-common/src/migration_bundle.rs:390-408 | what is skipped as a quote is a quoted text with doubled quotes, ended by a quote that is not doubled |
| SqlScan.QuotedIsBlank | wr-common/src/migration_bundle.rs:390-408 | every quoted text, whatever its content, is skipped as one item |
| SqlScan.DollarQuotedIsBlank | wr-common/src/migration_bundle.rs:433-453 | every dollar-quoted body is skipped up to the first repetition of its delimiter |
| SqlScan.CommentExact | wr-common/src/migration_bundle.rs:416-432 | a text is skipped as a complete block comment iff it is an opening mark and a body of bytes and nested comments up to the closing mark, in which no byte makes a mark with the next |
| SqlScan.SkippedInterchange | wr-common/src/migration_bundle.rs:384-465 | on a line of its own, replacing a literal or block comment by any other never changes the statements |
| SqlScan.InlineInterchange | wr-common/src/migration_bundle.rs:384-465 | nor inside a line, outside line comments and where neither item grows together with a neighbouring byte |
| SqlScan.TopLevelStatements | wr-common/src/migration_bundle.rs:384-465 | the scanner computes the specified statements with an index that strictly increases and slices on character boundaries only |
| SqlScan.RejectTransactionControl | wr-common/src/migration_bundle.rs:365-382 | the check reports UTF-8, scan and keyword refusals as specified |
| Sse.BoundaryStable | wr-engine/src/llm.rs:231-242 | later bytes never move a frame boundary that is complete |
| Sse.CutRebuilds | wr-engine/src/llm.rs:217-242 | frames, delimiters and leftover rebuild the input, and no boundary hides in a frame or in the leftover |
| Sse.SseDelimiters | wr-engine/src/llm.rs:231-242 | every delimiter is LF LF or CRLF CRLF |
| Sse.SseParser.Feed | wr-engine/src/llm.rs:217-229 | feeding returns the events of all complete frames or fails iff one is not UTF-8, and keeps the leftover |
| Sse.FeedComposes | wr-engine/src/llm.rs:217-229 | feeding two pieces one after the other gives the events, the leftover or the failure of feeding both at once |
| Sse.FeedIgnoresCuts | wr-engine/src/llm.rs:217-229 | for every cut into any number of chunks, the concatenated events, the leftover and the failure are those of the whole |
| EventBlock.ParseBlock | wr-engine/src/llm.rs:244-294 | the loop over the lines of a frame computes the event of the last event name and the joined data, up to JSON |
| EventBlock.BlockReadsBack | wr-engine/src/llm.rs:244-294 | a frame written with a name and any data lines, with either line end, is read as the event of that name and the joined lines |
| CodeStream.StreamReadsBack | wr-engine/src/llm.rs:217-294 | any list of written messages, cut into chunks in any way, gives exactly the events they mean and no leftover |
| StreamTask.Run | wr-engine/src/llm.rs:88-167 | the loop over chunks and events sends the specified sequence |
| StreamTask.ChunkIndependence | wr-engine/src/llm.rs:88-167 | any two cuts of a stream whose frames are UTF-8 send the same sequence |
| StreamTask.CutsNeverMatterExactly | wr-engine/src/llm.rs:105-114 | the cut never matters iff all frames are UTF-8 or all frames before the first invalid one are invisible |
| StreamTask.CutThatMatters | wr-engine/src/llm.rs:217-229 | every stream with a visible frame before an invalid one has a cut that changes what is sent |
| CodeStream.CodeIgnoresCuts | wr-engine/src/llm.rs:88-294 | with the code's own framing and block parser, any two cuts give the parser the same and, when the frames are UTF-8, the guest the same words |
| CodeStream.CodeCutsNeverMatterExactly | wr-engine/src/llm.rs:88-294 | what a guest of the code hears, error texts included, never depends on the cut iff the frames are UTF-8 or those before the first invalid one are invisible |
| CodeStream.StreamWithCutThatMatters | wr-engine/src/llm.rs:88-294 | a message_stop event and a frame of byte 255: in one piece the invalid-frame error, in two the ended-early error |
| StreamTask.SentAlwaysTerminates | wr-engine/src/llm.rs:115-166 | every sequence contains a stop or ends in an error, with an error only last |
| StreamTask.GuestSeesEverything | wr-engine/src/llm.rs:520-553 | a guest that keeps calling gets every sent event in order and then the end for ever |
| TaskGroup.Group.Spawned | wr-common/src/task_group.rs:113-127 | a spawn keeps name-map keys equal to the unjoined ids |
| TaskGroup.Group.NextCompletion | wr-common/src/task_group.rs:136-151 | an observed completion has the name of its own spawn and its own kind, and is kept for the report |
| TaskGroup.Group.Shutdown | wr-common/src/task_group.rs:155-186 | the group ends empty whether or not the deadline passed, the report holds one outcome per join, and the unfinished names are those live at the deadline |
| TaskGroup.TasksConserved | wr-common/src/task_group.rs:113-218 | at every moment, tasks spawned under a name = outcomes + live tasks under it |
| TaskGroup.EveryTaskReported | wr-common/src/task_group.rs:155-218 | when the group is empty each spawn was joined once, by the next event on its id, and its outcome is reported under its own name |
| TaskGroup.ReportComplete | wr-common/src/task_group.rs:155-186 | the report is sorted and is, as a multiset, the own outcome of every spawned task: its name, and the kind of its own join |
| Identity.UriExact | wr-common/src/identity.rs:124-165 | the accepted principal URIs are exactly the texts of valid principals, each of one principal |
| Identity.ComparisonRedundant | wr-common/src/identity.rs:146-149 | the final byte comparison never rejects anything |
| Naming.StorageComponent | wr-common/src/naming.rs:9-23 | the loop computes the specified encoding |
| Naming.ComponentInjective | wr-common/src/naming.rs:6-23 | the encoding is injective on name characters |
| Naming.ComponentCollides | wr-common/src/naming.rs:9-23 | and not beyond them |
| Naming.IdentifierBounded | wr-common/src/naming.rs:35-61 | identifiers are ASCII and within their budget for any components, and truncation splits no character |
| Naming.LoginIdentifier | wr-common/src/naming.rs:112-131 | login names fit 63 ASCII bytes for any input |
| Naming.ExecutorPrefix | wr-common/src/naming.rs:136-146 | the executor prefix leaves room for its 8-character nonce for any input |
| Naming.NamespaceIdentifiersDistinct | wr-common/src/naming.rs:86-109 | identifiers of accepted namespaces never coincide across purposes or namespaces |
| Naming.KindsApart | wr-common/src/naming.rs:86-146 | names of two kinds of database or role never coincide, for any inputs, hashed or cut or with a nonce |
| Naming.ExecutorsApart | wr-common/src/naming.rs:136-146 | executor names of two accepted namespaces never coincide, whatever their nonces |
| Naming.LoginSameExactly | wr-common/src/naming.rs:112-131 | login names of accepted nodes and namespaces coincide iff the part they have room to show and twelve digest digits do |
| Naming.SchemaSharedExactly | wr-common/src/naming.rs:77-83 | an accepted pair shares its schema with another accepted pair iff it can shift a part across two hyphens within the length limit |
| Naming.SchemaInjective | wr-common/src/naming.rs:77-83 | pairs without consecutive hyphens have schemas of their own |
| Naming.SchemaCollides | wr-common/src/naming.rs:77-83 | two accepted pairs with one schema |
| Blobstore.NormalizeKey | wr-engine/src/blobstore.rs:86-98 | the loop with its segment stack computes the specified normal form |
| Blobstore.ResolveEscapes | wr-engine/src/blobstore.rs:83-98 | a key is refused iff some prefix of it has more parent steps than segments, and otherwise keeps their difference |
| Blobstore.NormalizeIdempotent | wr-engine/src/blobstore.rs:86-98 | normalizing twice changes nothing |
| Blobstore.NormalizeComposes | wr-engine/src/blobstore.rs:86-98 | a normal form may stand for its path in any longer path |
| Blobstore.UnscopeScope | wr-engine/src/blobstore.rs:102-111 | unscoping a scoped key gives the normalized key |
| Blobstore.NamespacesApart | wr-common/src/naming.rs:149-151 | keys of distinct accepted namespaces never scope to one blob key |

## Left out

- PostgreSQL itself: locking, isolation, notification channels and pools; each statement is an atomic step.
- SHA-256, protobuf, TOML, JSON, base64 and RFC 3339: parameters, with the round trips named above.
- TLS, certificates, gRPC clients, manager discovery, AES, WebAssembly execution, HTTP bodies and telemetry: foreign code.
- Configuration, command lines, generated clients and deployment scripts: flat checks and text.
- Process lifecycle states, round-robin pools, candidate rotation and resource counters would only add easy members.
- Weak memory: the gate is one interleaving of atomic operations.  It is a step machine on values rather than a class,
  because its point is what happens between the operations of one call.
- Error texts other than the stream's: errors are told apart by kind; which of several violated checks is reported first
  is modelled only for the SQL check and the queue.
- Listing with a status filter, and the summary counts: rows may leave a status between two pages, so only the scan
  without one has a whole-run property.
- JobListing.LiveScan: speaks of requests that succeed; a table with an unlistable matching row fails the page that holds it.
- Snapshot: the projection kind `UNSPECIFIED` is not modelled; building refuses it, and every consumer asks for one of the two kinds.
- MigrationBundle: reading the files from directories; the captured list is the input.
- DeploymentContract: the operation id derived from a revision digest, a fixed bit pattern over one more hash.
- TaskGroup: the cancellation channel beyond being set at shutdown; tasks are whatever the runtime reports of them.
