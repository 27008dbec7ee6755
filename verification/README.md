# Unicas storage core, modelled and verified

Unicas is a content-addressed store for Apps. Each App has Spaces; a Space is a
reference-counted graph of immutable nodes, kept in database tables and an object
bucket, leased by clients, pinned by root references and collected when nothing
needs a node any more. This project models the parts of it that have to be right
together and proves what they promise.

`dafny verify dfyconfig.toml` checks the whole project.

## How the model is laid out

- `Prelude`, `Order`: shared vocabulary; the byte order of keys, and sorting.
- `Codec`, `CodecFormat`, `CanonicalStream`, `NodeDigest`, `NodeRead`: the canonical node
  format, the same in plain numbers, its streaming parser, its digest and spelling, and
  byte-range reads.
- `UsageProjection`, `UsageTables`: the statements on the metered tables with their
  triggers, as functions and as in-place updates, against a recount.
- `SpaceStore`, `SpaceInvariant`, `SpaceEffects`, `SpaceTheorems`: the tables and
  objects of one Space, every atomic storage action on them, the invariant, what each
  action changes, and the results over all runs. An action's guard says what a kernel
  has established when it acts.
- `SpaceActor`, `Gate`: the kernels as they run behind the gate. `Space` is a class
  whose fields are the tables and the bucket; before every storage call an
  arbitrary schedule lets clients put temporary objects and the reconciler write
  (possibly stale) observations, and lets the call throw. Every method extends a
  ghost run of admitted actions, so the theorems about runs apply to every state a
  kernel leaves, also where it was interrupted. `FreedKey`: one such run that fails.
- `RootLedger`, `RootRefs`, `LedgerOfSpace`: the root-reference ledger of an App.
  `RootRefs.AppStore` runs one Space's update while other Spaces commit between any
  two calls, calls fail before they happen and replies are lost. `LedgerOfSpace`
  runs one Space's store and the ledger together, each under its own guards.
- `AuditReads`, `AppGc`: paging through references and events, and the App sweep.
- `NodeUpload`: the client's handshake for one node, against a `Space` that others use
  and collect between its requests.
- `BlobIndex`, `BlobTree`, `BlobRead`, `BlobClient`: chunked blobs, written through
  `NodeUpload`. `BlobIndexFormat`: the index byte by byte. `BlobSpan`: what a read means
  on any store, also a damaged one.
  `BlobInSpace`: blobs kept in a Space while it collects.
- `BrowserCache`, `ControlPlane`: the browser cache and the account tables.

## Assumptions

- SHA-256 is some function from bytes to hashes. Nothing is assumed of it where
  storage is modelled; results that identify content by hash ask that no two byte
  strings in play share a digest (`CollisionFree`), and the blob client asks that
  digests have 32 bytes.
- Time is a parameter of each step. A dispatched root-reference command has ended
  when the gate is released.
- One App and, outside the ledger, one Space: the namespacing of keys by App and
  Space is not modelled. Space ids are compared by bytes, which is what both the
  database and the service do for ASCII ids.

## What the proofs found

- A blob of at most one chunk stored under the index content type is written but
  can never be opened (`BlobRead.BlobRoundTrip` is an equivalence;
  `BlobRead.IndexLookalikeIsUnreadable` is the concrete blob).
- Concurrent lease requests for one node share the first request's evaluation, so
  a later request for a longer lease can be given the shorter one
  (`Gate.SharedEvaluationCovers` is the exact condition).
- Only changes to the account a credential resolves to count
  (`ControlPlane.WhoLosesAuthority` is exact), so given an alias row a credential
  survives the block of the account it names
  (`ControlPlane.AliasedCredentialSurvivesBlock`). Nothing in the repository inserts
  a row into `cas_account_aliases`; only one inserted from outside leads there.
- `commit` in `packages/service-cloudflare/src/root-refs.ts` never returns its
  "revision-conflict" answer: a lost compare-and-set aborts the batch and throws,
  and the caller retries either way (`RootRefs.AppStore.Commit`).
- A validated upload waits over its own bytes until its key is deleted, since an
  upload URL never replaces an object. When deleting its record fails after deleting
  its object, the key is free: once the node has been collected, a URL that is still
  valid takes other bytes, and every evaluation fails until clean-up takes the record
  (`SpaceActor.PublishesIffHeld` is exact; `FreedKey.FreedKeyIsReused` is the run).
- A platform block repeated under a used event id moves the credential version without
  an audit record (`ControlPlane.UnauditedIffRepeated` is exact). Event ids are random.
- The comment on `NodeReadyCache` in `packages/service-cloudflare/src/node-lease.ts`
  calls the cache a readiness signal; `isNodeReady` only ever writes it. The model
  follows the code.

## Model

| member | source | states |
|---|---|---|
| `Codec.EncodeHeader` | packages/codec/src/binary.ts:52-84 | The 24 bytes written are the header layout for the content size, type length and reference count |
| `Codec.SetUint` | packages/codec/src/binary.ts:63-81 | A DataView write replaces exactly its window with the little-endian bytes of the value modulo its width |
| `Codec.NumberSafety` | packages/codec/src/binary.ts:93-117 | Rounding a 64-bit size to a double never brings an unsafe size back into the safe range, and keeps safe sizes exact |
| `Codec.HeaderRoundTrip` | packages/codec/src/binary.ts:52-117 | Decoding an encoded header gives back its fields |
| `Codec.HeaderIsCanonical` | packages/codec/src/validation.ts:115-141 | A header that decodes and passes validation is the one the encoder writes for its fields |
| `Codec.ConcatenateNodeBytes` | packages/codec/src/binary.ts:128-157 | Writing the parts at a moving offset yields header, type, references and content back to back |
| `Codec.ParseNodeBytes` | packages/codec/src/binary.ts:166-206 | The buffer parser succeeds exactly on the length its header announces, and on a legal encoding returns that node |
| `Codec.EncodeThenParse` | packages/codec/src/canonical-stream.ts:97-141 | Every legal node parses back to its size, type and references, with or without a declared length |
| `Codec.ParseThenEncode` | packages/codec/src/canonical-stream.ts:97-141 | Every byte string the validated parser accepts re-encodes to itself |
| `Codec.AcceptedIffEncoding` | packages/codec/src/validation.ts:29-63 | The accepted byte strings are exactly the encodings of legal nodes |
| `Codec.EncodeIsInjective` | packages/codec/src/binary.ts:128-157 | Different legal nodes never share bytes |
| `Codec.LegalBytesDetermineTheNode` | packages/codec/src/binary.ts:52-157 | Not even an unchecked, oversized node shares its bytes with a legal one |
| `Codec.PrefixInspection` | packages/service/src/node-lease.ts:931-950 | Inspecting only the bounded prefix of an object gives the verdict and metadata the whole object would get |
| `CodecFormat.LegalInNumbers` | packages/codec/src/validation.ts:29-63 | A legal node has a printable type of 1 to 1024 bytes, 32-byte references, and keeps the limits, by default 256 references and 64 MiB |
| `CodecFormat.LayoutInNumbers` | packages/codec/src/binary.ts:52-157 | Where every byte of an encoded node lies: signature, version, zero fields, the three numbers, type, references, content |
| `CodecFormat.RefusedInOrder` | packages/codec/src/canonical-stream.ts:97-141 | Any byte string is refused with the first complaint in the order the checks are made, and accepted when there is none |
| `CanonicalStream.StreamCursor.ReadExactly` | packages/codec/src/canonical-stream.ts:32-47 | Takes exactly the next bytes however the stream is cut, or fails exactly when fewer are left |
| `CanonicalStream.ReplayStream.Pull` | packages/codec/src/canonical-stream.ts:49-93 | One pull of the replay: the prefix, the remainder, then the reader, with the emitted length checked |
| `CanonicalStream.ReplayStream.Drain` | packages/codec/src/canonical-stream.ts:49-93 | Draining succeeds if and only if the total equals the declared size, and then yields exactly the source bytes |
| `CanonicalStream.ParseCanonicalNodeStream` | packages/codec/src/canonical-stream.ts:97-141 | The streaming parser answers what the parse of the concatenated bytes answers, for every cut of the stream |
| `NodeDigest.ComputeNodeDigest` | packages/codec/src/digest.ts:32-63 | The digest is taken over exactly the canonical bytes of the node |
| `NodeDigest.HexToHash` | packages/codec/src/digest.ts:80-91 | Reads 64 characters pair by pair as parseInt does; only the length is checked |
| `NodeDigest.PairIsParsed` | packages/codec/src/digest.ts:80-91 | What parseInt makes of two characters: two digits, one digit before or after something else, a skipped space or sign, or nothing |
| `Order.LessIsLexicographic` | packages/codec/src/digest.ts:68-75 | The order keys are listed in is the lexicographic one |
| `NodeDigest.SpellThenRead` | packages/codec/src/digest.ts:68-91 | Spelling a hash and reading it back is the identity |
| `NodeDigest.SpellingIsCanonical` | packages/codec/src/validation.ts:75-84 | A 64-character text is the spelling of what it reads as exactly when it is lower-case hexadecimal |
| `NodeDigest.SpellingKeepsOrder` | packages/codec/src/digest.ts:68-75 | Spellings of hashes are ordered as the hashes |
| `NodeRead.RangeAccepted` | packages/service/src/node-read.ts:90-117 | A range is served exactly when the header spells a valid specifier with safe numbers that selects something (section 14.1.2 of RFC 9110) |
| `NodeRead.RangeIsExact` | packages/service/src/node-read.ts:90-117 | A served range lies in the content and is exactly the set of positions the specifier selects |
| `NodeRead.RangeExamples` | packages/service/src/node-read.ts:90-117 | Both ends of a range are inclusive, a suffix is counted from the end, and a last position below the first is refused |
| `NodeRead.ServedFromRowAndObject` | packages/service/src/node-read.ts:35-64 | Bytes are served exactly when there are a row, an object and a range that can be met, and are the bytes of the object behind its 24-byte header, type and references; without row or object the answer is null |
| `NodeRead.ReadsTheContent` | packages/service/src/node-read.ts:35-64 | Shifting the range by the prefix length reads exactly that slice of the node content out of its canonical bytes |
| `UsageProjection.InsertNodeKeeps` | packages/service-cloudflare/src/schema.ts:76-89 | Inserting a node row aborts only on its own constraints and keeps the projection equal to the recount |
| `UsageProjection.UpdateNodeKeeps` | packages/service-cloudflare/src/schema.ts:70-104 | Updating a row never meets a missing projection and keeps it exact |
| `UsageProjection.DeleteNodeKeeps` | packages/service-cloudflare/src/schema.ts:73-116 | Deleting a row keeps the projection exact and removes it with the last row |
| `UsageProjection.UpsertReservationKeeps` | packages/service-cloudflare/src/schema.ts:117-131 | Adding or replacing a reservation keeps the projection exact |
| `UsageProjection.DeleteReservationKeeps` | packages/service-cloudflare/src/schema.ts:125-137 | Deleting a reservation keeps the projection exact |
| `UsageProjection.ProjectionRefinesRecount` | packages/service-cloudflare/src/schema.ts:70-137 | After any sequence of statements the projection row exists exactly when the Space has a row to count and equals the aggregate over the tables |
| `UsageProjection.ProjectionTells` | packages/service-cloudflare/src/schema.ts:70-137 | After any sequence of statements every column is what it is named for: how many nodes there are, lack an object, are leased, were never observed, and the sums of content, stored and reserved bytes |
| `UsageProjection.RepairRestores` | packages/service-cloudflare/src/usage-reconciliation.ts:84-123 | The repair batch makes any projection row exact |
| `UsageProjection.RepairIsNoOp` | packages/service-cloudflare/src/usage-reconciliation.ts:84-123 | On a projection kept by the triggers repair changes nothing but its timestamp |
| `UsageProjection.UsageBearingIffOccupied` | packages/service-cloudflare/src/app-gc.ts:12-18 | A Space is selected as usage-bearing exactly when it has a node or a reservation |
| `UsageProjection.ReadNodeUsage` | packages/service/src/node-usage.ts:20-52 | The slow recount: each total is the sum of its entries |
| `UsageProjection.ProjectionEqualsSlowRecount` | packages/service/src/node-usage.ts:20-52 | On fully observed nodes the projection columns are the totals of the slow recount |
| `UsageTables.SpaceTables.Insert` | packages/service-cloudflare/src/schema.ts:76-89 | In place: a legal new row is always inserted and the projection stays exact |
| `UsageTables.SpaceTables.Update` | packages/service-cloudflare/src/schema.ts:70-104 | In place: no guard trigger fires and no counter goes negative |
| `UsageTables.SpaceTables.Delete` | packages/service-cloudflare/src/schema.ts:73-116 | In place: the row goes, never aborting, and the projection stays exact |
| `UsageTables.SpaceTables.Reserve` | packages/service-cloudflare/src/schema.ts:117-131 | In place: aborts exactly for a size that is not positive |
| `UsageTables.SpaceTables.Unreserve` | packages/service-cloudflare/src/schema.ts:125-137 | In place: the reservation goes, never aborting |
| `UsageTables.SpaceTables.RepairSpaceUsageProjection` | packages/service-cloudflare/src/usage-reconciliation.ts:84-123 | Computed by aggregates over the tables, the row equals the repair batch and is exact whatever it held |
| `UsageTables.SpaceTables.WriteNodeObservation` | packages/service-cloudflare/src/usage-reconciliation.ts:72-82 | Writes the observation, or aborts and changes nothing; it aborts on a missing projection and never on an exact one |
| `UsageTables.SpaceTables.SelectRows` | packages/service-cloudflare/src/usage-reconciliation.ts:31-45 | Rows never observed first, by hash; when there are none, the longest unobserved first; all of them unless the limit stopped the selection |
| `UsageTables.SpaceTables.ReconcileUsageObservations` | packages/service-cloudflare/src/usage-reconciliation.ts:20-70 | Per selected row one head request and one clock value, with other writers before and between them and any call failing: examined is observed plus failed and a consistent projection stays so; in a quiet pass exactly the answered rows record their size and time, missing counts those without an object, nothing else changes and a missing projection is rebuilt |
| `SpaceInvariant.GroupingCounts` | packages/service-cloudflare/src/node-gc.ts:41-49 | The grouped multiplicity of a child is what deleting the parent takes off its count |
| `SpaceInvariant.CommitNodeCommits` | packages/service-cloudflare/src/node-lease.ts:495-530 | Publishing a node commits: its row, one edge and one count per reference with duplicates counted, its reservation dropped |
| `SpaceInvariant.CommitDeletionCommits` | packages/service-cloudflare/src/node-gc.ts:59-72 | Deleting a node commits: no count goes below zero, and each child loses exactly its multiplicity |
| `SpaceInvariant.UpdateRootsShape` | packages/service-cloudflare/src/root-refs.ts:86-90 | A root update moves each count by its own delta and nothing else |
| `SpaceInvariant.StepKeepsInv` | packages/service-cloudflare/src/node-lease.ts:241-535 | Every admitted storage action commits and keeps the invariant: exact counts, closed edges, a rank that strictly decreases along edges, true metadata, objects under their digest, missing objects only on expired unreferenced rows, temporary keys unique, validated uploads still over their bytes until the key is deleted, exact usage |
| `SpaceEffects.UniqueKeysAbort` | packages/service-cloudflare/src/schema.ts:20-54 | A statement aborts on a temporary key of another record, and on a second edge of one parent and ordinal |
| `SpaceEffects.StepHasEffect` | packages/service-cloudflare/src/node-lease.ts:241-535 | Exactly what each admitted storage action changes, row by row and column by column: what it does not name stays |
| `SpaceEffects.GuardsInPlainTerms` | packages/service-cloudflare/src/node-gc.ts:9-24 | What eligible means in the columns: no child or root count, lease over, no reservation past the cutoff; and what ready and a taken key mean |
| `SpaceEffects.PublicationEffect` | packages/service-cloudflare/src/node-lease.ts:495-530 | Publication adds the row with its size, type, lease, stored length and time, its edges, and to each child a reference for every place it is named in |
| `SpaceEffects.DeletionEffect` | packages/service-cloudflare/src/node-gc.ts:59-72 | Deletion takes the row and its edges away and from each child one reference per edge |
| `SpaceEffects.RootsEffect` | packages/service-cloudflare/src/root-refs.ts:86-90 | A root update moves the count of each node named by the number beside it and no other |
| `SpaceEffects.PublishedRowIsObserved` | packages/service-cloudflare/src/node-lease.ts:495-530 | Right after publication the row holds the length of the object under the hash, and the time |
| `SpaceTheorems.RunKeepsInv` | packages/service-cloudflare/src/node-gc.ts:6-73 | The invariant holds after every run of storage actions, stopped anywhere |
| `SpaceTheorems.EveryReachableWorld` | packages/service-cloudflare/src/schema.ts:20-54 | Whatever run of storage actions leads there from an empty Space, the invariant holds |
| `SpaceTheorems.CollectionIsSafe` | packages/service/src/gc.ts:58-83 | Over any run whose collections use no later cutoff, whatever cutoffs earlier ones used, everything reachable from a present node that stays root-referenced or leased keeps its row, its edges and its object byte for byte |
| `SpaceTheorems.ActionMovesRows` | packages/service-cloudflare/src/node-lease.ts:241-535 | What each storage action does to the rows, leases, root counts and objects: only publication adds a row, unreferenced by any root, and only deletion removes one |
| `SpaceTheorems.LeaseNeverDecreases` | packages/service/src/node-lease.ts:279-288 | No storage action moves a live lease backwards |
| `SpaceTheorems.LeaseKeepsItsPromise` | packages/service/src/node-lease.ts:312-323 | Until the lease of a present node expires no collection removes it or a descendant of it, also when an earlier collection read a later clock |
| `SpaceTheorems.GrantKeepsItsPromise` | packages/service/src/node-lease.ts:312-323 | From the renewal or publication that grants a lease on, everything the node reaches is kept by every run that stays below its expiry, whatever clocks were read before |
| `SpaceTheorems.AnchorIsPresent` | packages/service-cloudflare/src/node-gc.ts:51-57 | A root-referenced node has its object, and so has one leased past every cutoff there was |
| `SpaceTheorems.UploadedObjectStays` | packages/service-cloudflare/src/r2-upload-presigner.ts:46-70 | An uploaded object is never replaced: it stays byte for byte until its key is deleted |
| `SpaceTheorems.RootCountStays` | packages/service-cloudflare/src/root-refs.ts:86-88 | Only a root update changes the root count of a live node |
| `SpaceTheorems.LeftoverHasAnchor` | packages/service-cloudflare/src/node-gc.ts:9-24 | A node left when nothing is eligible has a path from an anchor |
| `SpaceTheorems.CollectionIsComplete` | packages/service-cloudflare/src/node-gc.ts:9-24 | When nothing is eligible the rows are exactly the nodes reachable from a root-referenced, leased or reserved node |
| `SpaceTheorems.PublishedMetadataIsTrue` | packages/service/src/node-lease.ts:433-479 | A row states what its canonical object parses to: size, type, ordered references, stored length |
| `SpaceTheorems.StagedValidationIsTrue` | packages/service/src/node-lease.ts:531-572 | A staged validation always describes the bytes with the digest of the node |
| `SpaceTheorems.PublishedContentIsServed` | packages/service/src/node-read.ts:35-64 | A read driven by the tables serves the content stored under the hash |
| `SpaceActor.NextLeaseIsMonotone` | packages/service/src/node-lease.ts:266-288 | Under any clock a renewal keeps start and expiry ordered, moves neither back and covers the request |
| `SpaceActor.NextLeaseInNumbers` | packages/service/src/node-lease.ts:266-288 | The expiry granted is the later of the old one and the clock plus the duration, which counts as at least 60000 ms and at most 86400000; the start is the old one while that lease runs, and the clock otherwise |
| `SpaceActor.OperationIsSafe` | packages/service/src/gc.ts:58-83 | Whatever an operation of the actor does, and wherever it is interrupted, what a root-referenced or leased node reached when it began is intact |
| `SpaceActor.Space.CommitUploadedCanonicalNode` | packages/service-cloudflare/src/node-lease.ts:495-530 | The batch built edge by edge is the publication, all or nothing |
| `SpaceActor.Space.RenewNodeLease` | packages/service-cloudflare/src/node-lease.ts:112-116 | Exactly the two lease columns of one row change |
| `SpaceActor.Space.ReplaceLeaseDrivenUpload` | packages/service-cloudflare/src/node-lease.ts:241-284 | The record is replaced exactly when the expected generation is current and no other record has its temporary key, which aborts; the superseded key is queued |
| `SpaceActor.Space.StageLeaseDrivenUploadValidation` | packages/service-cloudflare/src/node-lease.ts:286-317 | The validation is stored exactly when the generation is current, together with its reservation |
| `SpaceActor.Space.PutVerifiedCanonicalBytes` | packages/service-cloudflare/src/node-lease.ts:349-361 | The object is stored exactly when its digest is the key; an existing object is kept |
| `SpaceActor.Space.FindUnreadyChildren` | packages/service/src/node-lease.ts:441-450 | The children named are exactly the distinct references that are not ready |
| `SpaceActor.Space.PublishValidatedUpload` | packages/service/src/node-lease.ts:433-479 | Publishes with all children ready, else names those that are not |
| `SpaceActor.Space.ValidateUpload` | packages/service/src/node-lease.ts:531-572 | Accepts exactly bounded bytes with the digest that parse as a canonical node, with their metadata |
| `SpaceActor.Space.RecoverOrphan` | packages/service/src/node-lease.ts:325-353 | A canonical object without a row is validated and staged unless a validation is on record, and undisturbed it is published exactly when its children are ready |
| `SpaceActor.RejectionInPlainTerms` | packages/service/src/node-lease.ts:531-572 | A rejection names the size first, over 64 MiB, then the digest, then the form; a record that waits is answered with its rejection, if it has one |
| `SpaceActor.Space.ReplaceRejected` | packages/service/src/node-lease.ts:481-497 | A rejected upload gets a fresh generation that carries the rejection |
| `SpaceActor.Space.AwaitTemporary` | packages/service/src/node-lease.ts:364-382 | Without a temporary object an unvalidated record whose session runs is answered unchanged; when the session is over, undisturbed, a successor with the next generation takes its place and the old temporary object is gone; nothing else changes |
| `SpaceActor.Space.EvaluateTemporary` | packages/service/src/node-lease.ts:394-430 | A temporary object is rejected, or validated, staged and published |
| `SpaceActor.Space.EvaluateNewUpload` | packages/service/src/node-lease.ts:355-362 | Undisturbed, a first request is refused exactly at the upload limit or for a temporary key of another record, and otherwise leaves the new record and the answer its evaluation gives |
| `SpaceActor.NewUploadInNumbers` | packages/service/src/node-lease.ts:499-529 | A session lasts as long as sessions do and its record is kept for the grace time after it |
| `SpaceActor.Space.RenewLive` | packages/service/src/node-lease.ts:312-323 | A live node gets start and expiry stated in plain numbers: no renewal adds to an older expiry |
| `SpaceActor.Space.EvaluateUpload` | packages/service/src/node-lease.ts:364-431 | Undisturbed, an existing record waits, is replaced, is rejected, names its unready children or is published, by what it holds, what was uploaded and the time; and disturbed or not, an answer that names children leaves a validation staged from the temporary object, which is still there |
| `SpaceActor.Space.LeaseDrivenNodeUpload` | packages/service/src/node-lease.ts:290-431 | One evaluation: its answer matches the records it leaves, a granted lease has the start and expiry stated in plain numbers, a row without its object fails, nothing is deleted; undisturbed, every case of a new, waiting, validated, rejected or orphaned upload has the outcome stated for it |
| `SpaceActor.Space.CleanupExpiredUploads` | packages/service-cloudflare/src/node-lease.ts:363-415 | Only records whose own clean-up time has come go, with their reservations; undisturbed, the earliest of them and then the earliest due keys of the queue, up to the limit in all, are gone with reservations and temporary objects, and the number returned counts them |
| `SpaceActor.Space.DrainCleanupQueue` | packages/service-cloudflare/src/node-lease.ts:399-410 | Undisturbed, the oldest due keys of the queue, up to the limit, are gone with their temporary objects and counted |
| `SpaceActor.Space.ExpireOne` | packages/service-cloudflare/src/node-lease.ts:376-397 | Undisturbed, the temporary object, the record and its reservation are gone and nothing else changed |
| `SpaceActor.Space.CleanUpUpload` | packages/service/src/node-lease.ts:472-477 | Undisturbed, the published upload leaves neither its temporary object nor its record |
| `SpaceActor.Space.FindExpiredUnreferenced` | packages/service-cloudflare/src/node-gc.ts:9-24 | Distinct eligible rows, all of them unless the limit was reached |
| `SpaceActor.Space.GroupChildren` | packages/service-cloudflare/src/node-gc.ts:41-49 | Each child once with its multiplicity |
| `SpaceActor.Space.ReadStillExpiredUnreferenced` | packages/service-cloudflare/src/node-gc.ts:26-49 | A deletion is returned exactly when the row is still eligible |
| `SpaceActor.Space.DeleteCanonicalContent` | packages/service-cloudflare/src/node-gc.ts:51-57 | The object goes first, then the record of it |
| `SpaceActor.Space.DeleteExamined` | packages/service/src/gc.ts:72-76 | Content before metadata: what ran through deletes the node and takes its references off its children |
| `SpaceActor.Space.CollectOne` | packages/service/src/gc.ts:66-77 | A candidate is collected unless it is no longer eligible |
| `SpaceActor.Space.CollectExpiredUnreferencedNodes` | packages/service/src/gc.ts:47-84 | A pass that does not throw deletes exactly what it examined, the node count drops by that number, reclaimed bytes are the content of the rows gone, and it examines nothing exactly when nothing is eligible; thrown or not, rows that stay keep their leases and roots |
| `SpaceActor.LegalUploadIsPublished` | packages/service/src/node-lease.ts:394-479 | The outcome stated for an uploaded legal node whose children are ready is a granted lease, with its record and temporary object gone |
| `SpaceActor.PublishesUploadedNode` | packages/service/src/node-lease.ts:290-431 | In an undisturbed Space one evaluation publishes any uploaded legal node whose children are ready, and a collection before its lease expires keeps it |
| `SpaceActor.PublishesFirstNode` | packages/service/src/node-lease.ts:290-431 | Such Spaces exist: an empty one with any legal leaf uploaded |
| `SpaceActor.PublishesIffHeld` | packages/service/src/node-lease.ts:433-479 | A validated upload whose children are ready is published exactly when its temporary object has the digest, and fails otherwise |
| `SpaceActor.StagedUploadIsPublished` | packages/service/src/node-lease.ts:433-479 | So a validation staged from its upload is published once its children are ready, as long as its key was not deleted since |
| `SpaceActor.PublishesParentAfterChild` | packages/service/src/node-lease.ts:290-431 | Undisturbed, a parent uploaded before its child names it, and is published by the first evaluation after the child is, with no second upload |
| `FreedKey.FreedKeyIsReused` | packages/service/src/node-lease.ts:472-477 | A run leaves a validated record over bytes that are not the node: its object was deleted, its record was not, a collection took the node and the URL was used again; every undisturbed evaluation fails from there |
| `Gate.MutationGate.WithMutation` | packages/service-cloudflare/src/space-do.ts:331-343 | A call takes the tail and becomes it |
| `Gate.MutationGate.Begin` | packages/service-cloudflare/src/space-do.ts:331-343 | An operation begins only after all earlier calls are done |
| `Gate.MutationGate.Finish` | packages/service-cloudflare/src/space-do.ts:331-343 | The gate is released after success and after failure |
| `Gate.OneAtATime` | packages/service-cloudflare/src/space-do.ts:331-343 | At most one gated operation runs |
| `Gate.NeverStuck` | packages/service-cloudflare/src/space-do.ts:331-343 | While calls wait, one runs or exactly one may begin |
| `Gate.LeaseEvaluations.HandleLease` | packages/service-cloudflare/src/space-do.ts:189-210 | A request shares the active evaluation of its node, or starts one under its node and leaves all others alone |
| `Gate.LeaseEvaluations.Settle` | packages/service-cloudflare/src/space-do.ts:202-204 | An evaluation that ended, well or badly, is no longer running and is still the one to share |
| `Gate.LeaseEvaluations.Release` | packages/service-cloudflare/src/space-do.ts:204-208 | The starter takes its own evaluation off the map and never a later one |
| `Gate.OneEvaluationPerNode` | packages/service-cloudflare/src/space-do.ts:189-208 | Two running evaluations of one node are the same |
| `Gate.OwnEvaluationCovers` | packages/service/src/node-lease.ts:279-288 | A request with its own evaluation is given at least the expiry it asks for |
| `Gate.SharedEvaluationCovers` | packages/service-cloudflare/src/space-do.ts:189-208 | An answer shared between concurrent lease requests covers the second request, whatever the node had, exactly when the first asked for at least as late an expiry |
| `Gate.SharedEvaluationCanFallShort` | packages/service-cloudflare/src/space-do.ts:189-208 | A request sharing a running evaluation can be given a shorter lease than it asked for |
| `BlobIndex.ValidateBlobIndex` | packages/space-blob-client/src/blob-index.ts:23-42 | The running total with its early exits accepts exactly the indexes whose positive sizes add up to a safe size |
| `BlobIndex.DecodesIffEncoded` | packages/space-blob-client/src/blob-index.ts:44-88 | A byte string decodes to an index exactly when it is the deterministic encoding of that valid index |
| `BlobIndex.WireIsInjective` | packages/space-blob-client/src/blob-index.ts:44-57 | Two indexes never share an encoding |
| `BlobIndex.WireIsShort` | packages/space-blob-client/src/blob-index.ts:54-57 | An index always fits into one node |
| `BlobIndexFormat.ValidInNumbers` | packages/space-blob-client/src/blob-index.ts:23-42 | A valid index in numbers: version 1, safe level and size, 1 to 1024 printable characters, 1 to 256 positive sizes with running totals up to the size |
| `BlobIndexFormat.WireInBytes` | packages/space-blob-client/src/blob-index.ts:44-57 | The encoding of a valid index byte by byte: the map head, the keys c, l, m, s, v and shortest heads |
| `BlobTree.Carry` | packages/space-blob-client/src/blob-client.ts:105-123 | Appending a node extends the open group of its level, or completes it and carries one branch up |
| `BlobTree.BuildKeepsBytes` | packages/space-blob-client/src/blob-client.ts:76-145 | The tree built level by level holds exactly the content of its leaves in order |
| `BlobTree.RootLevel` | packages/space-blob-client/src/blob-client.ts:125-145 | Over n leaves the root level L satisfies fanout^L < n <= fanout^(L+1) |
| `BlobTree.BlobTreeIsShallow` | packages/space-blob-client/src/blob-client.ts:285-308 | The tree of a blob of more than one chunk holds its bytes at the least possible level |
| `BlobTree.SoundBranch` | packages/space-blob-client/src/blob-client.ts:76-103 | A group within the fan-out has a writable index exactly when its size and media type are legal |
| `BlobRead.BlobRoundTrip` | packages/space-blob-client/src/blob-client.ts:147-245 | A stored blob reads back whole and by every range if and only if it is not a single chunk under the index content type |
| `BlobRead.IndexLookalikeIsUnreadable` | packages/space-blob-client/src/blob-client.ts:147-158 | The empty blob stored under the index content type can never be opened |
| `BlobRead.ContentTypesInFull` | packages/space-blob-client/src/blob-index.ts:3-4 | The content types that mark chunks and indexes |
| `BlobRead.ReadsTree` | packages/space-blob-client/src/blob-client.ts:160-178 | Reading a stored tree yields its bytes |
| `BlobRead.ReadsTreeRange` | packages/space-blob-client/src/blob-client.ts:180-219 | A range read of a stored tree yields exactly that slice |
| `BlobSpan.ReadsWhatSpans` | packages/space-blob-client/src/blob-client.ts:160-178 | On every store a read answers bytes exactly when the node and all it reaches by references are there, level by level, and spell them |
| `BlobSpan.ReadsWhatSpansRange` | packages/space-blob-client/src/blob-client.ts:180-219 | On every store a ranged read answers bytes exactly when every node the range touches is there and spells its part |
| `BlobSpan.ResolvesWhatIsDescribed` | packages/space-blob-client/src/blob-client.ts:147-158 | A root opens exactly as what it says of itself; an unknown hash is not found, and a plain node with references is no root |
| `BlobSpan.BlobReadsWhatSpans` | packages/space-blob-client/src/blob-client.ts:221-243 | A blob reads whole exactly when its root and all it reaches are there and spell the bytes, so a missing or ill-typed node is an error and never a shorter answer |
| `BlobSpan.BlobRangeReadsWhatSpans` | packages/space-blob-client/src/blob-client.ts:221-243 | A range reads exactly when it begins in the blob and the nodes it touches are there and spell it |
| `BlobSpan.RangeIsSlice` | packages/space-blob-client/src/blob-client.ts:180-219 | Under indexes that state true sizes a range that is answered is that slice of the whole |
| `BlobRead.BlobStays` | packages/space-blob-client/src/blob-client.ts:251-310 | A stored blob stays readable while the store only grows |
| `BlobClient.ChunkSource.Next` | packages/space-blob-client/src/blob-client.ts:416-446 | Yields the next full chunk, or what is left, however the stream is cut |
| `NodeUpload.ServedIsLegal` | packages/service/src/node-read.ts:35-64 | What a Space serves under a hash is a legal node with that digest |
| `NodeUpload.RunKeepsLeased` | packages/service/src/gc.ts:58-83 | Over any run whose collections end below a time, every present node leased to it stays so, byte for byte |
| `NodeUpload.OperationKeepsLeased` | packages/service/src/gc.ts:58-83 | So does every operation of the actor, wherever it is interrupted |
| `NodeUpload.NodeWriter.ServeOthers` | packages/service/src/node-lease.ts:279-288 | Over any run of requests by other users, renewals of one node however often among them, no lease ends later than it did or than 24 hours past the clock of a request that leased the node |
| `NodeUpload.NodeWriter.LeaseNode` | packages/space-blob-client/src/node-content.ts:92-112 | A request for a lease, with other users of the Space before it and its answer perhaps lost: what was leased stays, and a granted lease reaches the time asked for |
| `NodeUpload.NodeWriter.Comply` | packages/space-blob-client/src/node-content.ts:108-133 | What one answer asks is done or an error is given: every child named is leased, or the content is at the key; a second rejection is an error |
| `NodeUpload.NodeWriter.UploadCanonicalNode` | packages/space-blob-client/src/node-content.ts:92-139 | At most three rounds of answer and compliance: a success means the node is present and leased, whatever was lost, refused or done by others what was leased stays so, and in an idle undisturbed Space a legal node over leased references is always written |
| `BlobClient.BlobClient.StoreNode` | packages/space-blob-client/src/node-content.ts:71-90 | A node is written into the Space under its digest and is the one served unless digests collide; nodes leased before stay |
| `BlobClient.BlobClient.StoreIndex` | packages/space-blob-client/src/blob-client.ts:76-103 | The index written is the one of the branch over its children, and succeeds for legal sizes and media types |
| `BlobClient.BlobClient.AppendTreeNode` | packages/space-blob-client/src/blob-client.ts:105-123 | The counter over a level becomes the counter over that level with one more node |
| `BlobClient.BlobClient.FinishTree` | packages/space-blob-client/src/blob-client.ts:125-145 | Terminates, and the node returned is the tree over all leaves built level by level |
| `BlobClient.BlobClient.StoreBlob` | packages/space-blob-client/src/blob-client.ts:251-310 | Node by node through lease evaluations of one Space, under lost requests, refusals, other writers and collections: the root depends on the bytes of the stream, media type, chunk size and fan-out alone, and a success leaves every node leased; undisturbed it succeeds exactly for a legal media type, a safe size and the announced size |
| `BlobClient.StoredBlobReadsBack` | packages/space-blob-client/src/blob-client.ts:221-310 | What a successful store returns opens to the stored bytes in every later state in which the store has only grown, with the one exception of the index lookalike |
| `BlobInSpace.UploadedBlobReadsBack` | packages/space-blob-client/src/blob-client.ts:147-310 | What StoreBlob reports stored reads back from the Space, whole and by every range, after any run whose collections end before the leases asked for, with the one exception of the index lookalike |
| `BlobInSpace.TreeOutlives` | packages/service/src/gc.ts:58-83 | A tree below a node that stays root-referenced or leased stays stored over any run, collections included |
| `BlobInSpace.BlobOutlives` | packages/service/src/gc.ts:58-83 | A blob whose root stays root-referenced or leased is still held, all of it, after any run |
| `BlobInSpace.PinnedBlobReadsBack` | packages/space-blob-client/src/blob-client.ts:147-245 | After any run of the Space that keeps its root root-referenced or leased, collections included, a blob reads back whole and by every range, with the one exception of the index lookalike |
| `BlobInSpace.LeasedBlobReadsBack` | packages/space-blob-client/src/blob-client.ts:147-245 | A lease on the root that outlasts the cutoffs is enough for that |
| `BlobClient.ReadNodeInOrder` | packages/space-blob-client/src/blob-client.ts:160-178 | The loop over the children reads what the recursive definition reads |
| `BlobClient.ReadRangeNodesInOrder` | packages/space-blob-client/src/blob-client.ts:180-219 | The loop with its running child offset and early return reads what the recursive definition reads |
| `RootLedger.CommitCommits` | packages/service-cloudflare/src/root-refs.ts:74-111 | A licensed commit aborts exactly when the revision has moved, and otherwise applies every delta once |
| `RootLedger.BatchGoesThrough` | packages/service-cloudflare/src/root-refs.ts:74-111 | On every ledger: a batch with distinct keys goes through exactly when the revision is the expected one and no constraint is broken, and then moves each count, writes or drops each balance and adds its event and its request |
| `RootLedger.StepKeepsInv` | packages/service-cloudflare/src/root-refs.ts:74-111 | Every step keeps: revisions exactly 1..n, requests and events naming each other, projection equal to the positive counts, counts equal to the sums of deltas, no negative prefix sum |
| `RootLedger.RunKeepsInv` | packages/service-cloudflare/src/root-refs.ts:74-111 | That holds over every interleaving of the commits of all Spaces |
| `RootLedger.EveryReachableLedger` | packages/service-cloudflare/src/schema.ts:14-18 | So it holds of every ledger reached from the empty one |
| `RootLedger.RequestTakesEffectOnce` | packages/service-cloudflare/src/schema.ts:16-17 | Two events of one Space and request are the same event |
| `RootLedger.RunAppends` | packages/service-cloudflare/src/schema.ts:68-69 | Events and requests stay as committed for the rest of every run |
| `RootRefs.CanonicalizeRootRefsUpdate` | packages/service/src/root-refs.ts:147-201 | Accepts exactly legal requests and lists the same entries in hash order |
| `RootRefs.CanonicalFormIgnoresOrder` | packages/service/src/root-refs.ts:197-199 | Two listings of the same changes have the same canonical form |
| `RootRefs.DecisionInPlainTerms` | packages/service/src/root-refs.ts:208-303 | An unknown request is let through exactly when every entry has a row with 0 <= count + delta <= 2^53 - 1 and every positive one an object; a refusal carries the code of the first entry that fails |
| `RootRefs.AppStore.Commit` | packages/service-cloudflare/src/root-refs.ts:74-111 | The batch takes effect whole or not at all, also when its reply is lost; the answer is a revision or an exception, never a revision conflict |
| `RootRefs.AppStore.PlanUpdate` | packages/service/src/root-refs.ts:234-303 | The reads and checks of one attempt yield a licensed plan or the refusal the first failing entry dictates, in the terms of the ledger; "projection differs" is never answered |
| `RootRefs.AppStore.ApplyRootRefsUpdate` | packages/service/src/root-refs.ts:208-315 | One attempt: the update has happened once or not at all; undisturbed the answer is the one the state determines, applied exactly when every row exists, 0 <= count + delta <= 2^53 - 1 and what gains references is ready |
| `RootRefs.AppStore.WithRootRefsRetry` | packages/service/src/root-refs.ts:347-374 | Bounded attempts; a success means the update is in the ledger exactly once under the revision returned, a refusal that it never happened; undisturbed the first attempt gives the answer the state determines |
| `RootRefs.BalancesAgree` | packages/service/src/root-refs.ts:283-290 | The projection read back equals the counts on the rows |
| `LedgerOfSpace.CommitIsUpdateRoots` | packages/service-cloudflare/src/root-refs.ts:86-90 | A licensed commit is an admitted root update of its Space and both views agree afterwards |
| `LedgerOfSpace.GuardsMeet` | packages/service-cloudflare/src/node-gc.ts:59-72 | What a Space checks before it adds or deletes a node or object is what the ledger needs of its environment: no row with a root count is ever deleted |
| `LedgerOfSpace.ActionKeepsAgreement` | packages/service-cloudflare/src/node-gc.ts:59-72 | Every storage action of the Space is the ledger step it is mapped to |
| `LedgerOfSpace.JointStepKeepsInv` | packages/service-cloudflare/src/root-refs.ts:74-111 | Any storage action, commit or step of another Space keeps both invariants and the agreement, under the guards of the acting side alone |
| `LedgerOfSpace.JointRunKeepsInv` | packages/service-cloudflare/src/root-refs.ts:74-111 | Over every joint run both invariants hold, both agree, and the root count of every live node is the sum of the deltas of all recorded events |
| `LedgerOfSpace.EveryReachableJoint` | packages/service-cloudflare/src/root-refs.ts:74-111 | So all of it holds in every state reached from an empty Space and an empty ledger |
| `AuditReads.SelectRefs` | packages/service-cloudflare/src/audit-reads.ts:96-102 | The query returns the first rows past the cursor in key order |
| `AuditReads.AuditReader.ListAppRootRefs` | packages/service-cloudflare/src/audit-reads.ts:75-120 | A page shows, in key order, exactly the positive balances past the cursor that have the Space asked for, if one is, up to the limit, at one revision; it continues a cursor only at the revision of the cursor and refuses foreign cursors and limits outside 1 to 1000 |
| `AuditReads.AuditReader.FollowRefs` | packages/service-cloudflare/src/audit-reads.ts:93-119 | Following cursors under concurrent commits fails or yields exactly the ordered positive balances at one revision: of the Space asked for alone, each once, or of all Spaces |
| `AuditReads.AuditReader.ListAppRootEvents` | packages/service-cloudflare/src/audit-reads.ts:122-152 | A page is exactly the events between its start and nextAfter, and moves on while there are newer revisions |
| `AuditReads.WindowHolds` | packages/service-cloudflare/src/audit-reads.ts:136-147 | A window of events holds exactly those past its start and up to its end that have the Space asked for, if one is, in order |
| `AuditReads.AuditReader.FollowEvents` | packages/service-cloudflare/src/audit-reads.ts:122-152 | Following nextAfter sees every event once, in revision order, under concurrent appends, and comes at least one revision further per page until it has caught up |
| `AuditReads.BalanceIsStable` | packages/service-cloudflare/src/audit-reads.ts:93-119 | Appending never changes what a balance was at an earlier revision |
| `AuditReads.WindowsJoin` | packages/service-cloudflare/src/audit-reads.ts:148-151 | Consecutive event windows put together are the whole window |
| `AppGc.ValidateSpacePage` | packages/service/src/app-gc.ts:156-167 | Accepts exactly pages within the limit that strictly ascend from the cursor |
| `AppGc.ListUsageBearing` | packages/service-cloudflare/src/app-gc.ts:12-20 | The first usage-bearing Spaces past the cursor, all of them unless the limit stopped the listing |
| `AppGc.Sweep.CollectSpaceGarbage` | packages/service/src/app-gc.ts:102-154 | Whatever the actor answers, the totals are the sum of its replies, deleted <= examined <= the budget, in at most one call per node of it; it fails exactly on a reply that does not fit what is left |
| `AppGc.Sweep.RunAppGarbageCollection` | packages/service/src/app-gc.ts:39-100 | A page visits the next Spaces once each within their budgets, its totals are the sum of all replies and its cursor is the last Space; each error names its cause |
| `AppGc.Sweep.FollowSweep` | packages/service/src/app-gc.ts:39-100 | Following cursors visits Spaces in strictly ascending order, and every Space that bears usage at each listing exactly once; only bad arguments, a throw, a refused reply or an overflow stop it |
| `AppGc.PassIsAcceptable` | packages/service/src/app-gc.ts:140-147 | A collection pass never reports what the sweep refuses |
| `AppGc.CollectSpace` | packages/service/src/app-gc.ts:116-152 | Against a real actor the loop deletes exactly what it examines, reclaims the content of the rows gone, leaves nothing eligible when budget is left, and always ends with a result when undisturbed |
| `AppGc.DrainedSpaceHoldsOnlyAnchoredNodes` | packages/service-cloudflare/src/node-gc.ts:9-24 | What such a sweep leaves is exactly what an anchor reaches |
| `AppGc.LeftIsNeeded` | packages/service-cloudflare/src/node-gc.ts:9-24 | A Space that only shrank, spared what is needed and has nothing eligible left holds exactly what paths of the Space as it was reach from needed nodes |
| `AppGc.SweepUntilDrained` | packages/service/src/app-gc.ts:102-154 | Repeated undisturbed sweeps of any Space, under any budget, end after all but one took a whole budget, and leave exactly what a root-referenced, leased or still reserved node reached at the start |
| `BrowserCache.TrimDropsOldest` | packages/space-browser-cache/src/cache-core.ts:154-158 | Eviction drops a prefix in order of use, and no more of it than the limit needs |
| `BrowserCache.TrimKeepsTheLast` | packages/space-browser-cache/src/cache-core.ts:148-159 | The entry just remembered is never the one dropped |
| `BrowserCache.EvictsLeastRecentlyUsed` | packages/space-browser-cache/src/cache-core.ts:148-159 | Whatever is evicted was used before everything that stays |
| `BrowserCache.RememberedIsLegal` | packages/space-browser-cache/src/cache-core.ts:148-159 | The remembered entries stay distinct, in order of use and within the limit |
| `BrowserCache.RememberedUses` | packages/space-browser-cache/src/cache-core.ts:148-159 | An entry over the limit is forgotten and nothing else happens; any other is the last one used, and what went for it was used before all that stays, no more of it than the limit needs |
| `BrowserCache.NodeCache.Remember` | packages/space-browser-cache/src/cache-core.ts:148-159 | The entry is the last one used or, over the limit, forgotten; only the least recently used go, no more than needed, and memoryBytes is the exact total |
| `BrowserCache.NodeCache.ResumeGet` | packages/space-browser-cache/src/cache-core.ts:161-181 | After an invalidation or close the rest of a read returns nothing and leaves the memory alone |
| `BrowserCache.NodeCache.Put` | packages/space-browser-cache/src/cache-core.ts:183-187 | An entry is remembered exactly when its operation began in this generation and it fits, and is then the last one used |
| `BrowserCache.NodeCache.Invalidate` | packages/space-browser-cache/src/cache-core.ts:121-126 | The memory is empty and a new generation begins |
| `BrowserCache.NodeCache.Interleave` | packages/space-browser-cache/src/cache-core.ts:161-199 | Under any interleaving the count is exact, the generation counts the invalidations and what is in memory was added by operations begun after the last of them |
| `BrowserCache.EvictPersisted` | packages/space-browser-cache/src/cache-core.ts:191-197 | The oldest persisted entries go until the limit holds, and no more |
| `ControlPlane.StepKeepsInv` | packages/service-cloudflare/src/account-repository.ts:1014-1522 | Any batch with any input keeps: every App has a member, every account an active identity, active (issuer, subject) pairs unique |
| `ControlPlane.StepKeepsAnAdmin` | packages/service-cloudflare/src/account-repository.ts:1120-1250 | Once an unblocked account holds platform.admin, one always does |
| `ControlPlane.RunKeepsInv` | packages/service-cloudflare/src/account-repository.ts:1014-1522 | Both hold over every run |
| `ControlPlane.AuthorityComesFromAdministrators` | packages/service-cloudflare/src/account-repository.ts:1120-1186 | Over every run an account gains an authority only from an unblocked account that held platform.admin and acted through its active identity, or by accepting an invitation such an account made |
| `ControlPlane.GainIsGiven` | packages/service-cloudflare/src/account-repository.ts:1120-1186 | One step gives an authority only so |
| `ControlPlane.InvitationIsMade` | packages/service-cloudflare/src/platform-invitation-repository.ts:113-167 | A platform invitation is made only by an unblocked administrator acting through an active identity |
| `ControlPlane.InvitationHasMaker` | packages/service-cloudflare/src/platform-invitation-repository.ts:113-167 | Over every run each invitation has such a maker, and offers what that maker put in it |
| `ControlPlane.OnlyAdministratorIsLast` | packages/service-cloudflare/src/account-repository.ts:1120-1250 | The guard for the last administrator stops exactly the change that would leave none unblocked |
| `ControlPlane.AppNeedsAuthority` | packages/service-cloudflare/src/account-repository.ts:926-982 | An App appears only by an unblocked account that may create Apps and acts through its active identity, and has that account as member |
| `ControlPlane.MembershipIsTaken` | packages/service-cloudflare/src/account-repository.ts:683-778 | A member is new only by creating the App or by taking its place through an active identity |
| `ControlPlane.JoiningIsExact` | packages/service-cloudflare/src/account-repository.ts:683-778 | Taking a place in an App goes through exactly for an unblocked account acting through an active identity, and adds that member alone |
| `ControlPlane.AccountIsCreated` | packages/service-cloudflare/src/account-repository.ts:1340-1389 | An account appears only by sign-up, unblocked, with the identity it signed up with and no authority |
| `ControlPlane.ResolutionIsChain` | packages/service/src/account.ts:1637-1650 | An account resolves to another exactly when a chain of at most eight alias rows without repetition leads there and ends |
| `ControlPlane.AccountRepository.CreateAccountWithIdentity` | packages/service-cloudflare/src/account-repository.ts:1340-1389 | The account and its identity are there, or a taken pair or id stops both |
| `ControlPlane.AccountRepository.CommitCreateAccountApp` | packages/service-cloudflare/src/account-repository.ts:926-982 | The App, its first member and its audit record are there together, exactly for an actor who may create Apps |
| `ControlPlane.AccountRepository.CommitCreateInvitation` | packages/service-cloudflare/src/platform-invitation-repository.ts:113-167 | The pending invitation is there exactly for an administrator with an active identity; only a taken id, token or event throws |
| `ControlPlane.AccountRepository.CommitRevokeInvitation` | packages/service-cloudflare/src/platform-invitation-repository.ts:169-197 | Exactly an open invitation at the expected revision is revoked, by an administrator |
| `ControlPlane.AccountRepository.CommitAcceptInvitation` | packages/service-cloudflare/src/platform-invitation-repository.ts:199-280 | Exactly an open invitation with this token is accepted, once, and gives exactly its authorities |
| `ControlPlane.ChangeIffAudited` | packages/service-cloudflare/src/account-repository.ts:1137-1169 | Access differs after a platform change exactly when the batch added the audit record of its event, also when the event id was used before |
| `ControlPlane.UnauditedIffRepeated` | packages/service-cloudflare/src/account-repository.ts:1190-1258 | Anything a platform change alters, access or not, has its new audit record, except exactly a repeated block under a used event id, which moves the version and the time of the block alone |
| `ControlPlane.VersionsNeverDecrease` | packages/service-cloudflare/src/account-repository.ts:1231-1234 | Accounts stay and credential versions never decrease |
| `ControlPlane.EffectiveChangesSupersede` | packages/service-cloudflare/src/account-repository.ts:1437-1442 | Every effective block, link and unlink moves the version of its account on |
| `ControlPlane.SupersededNeverAuthorizes` | packages/service/src/account.ts:543-566 | A credential issued before its canonical account is superseded never authorizes again, whatever follows |
| `ControlPlane.WhoLosesAuthority` | packages/service/src/account.ts:543-566 | Exactly the credentials that resolve to the changed account, and those of the unlinked identity, lose authority |
| `ControlPlane.AliasedCredentialSurvivesBlock` | packages/service/src/account.ts:543-566 | Concrete tables with an alias row: the account a credential names is blocked and the credential still authorizes |
| `ControlPlane.AccountRepository.CommitRemoveAppMembership` | packages/service-cloudflare/src/account-repository.ts:1014-1062 | The answer names the guard that stopped the removal; the last member is never removed |
| `ControlPlane.AccountRepository.CommitPlatformAuthority` | packages/service-cloudflare/src/account-repository.ts:1120-1188 | The tables differ after it only for an actor whose account is unblocked, holds platform.admin and has that identity active; it is forbidden exactly when one of the three fails, exactly one authority changes otherwise, and the last administrator stays |
| `ControlPlane.AccountRepository.CommitPlatformBlock` | packages/service-cloudflare/src/account-repository.ts:1190-1258 | Under the same three conditions the account ends blocked or restored as asked, or the failed guard is named |
| `ControlPlane.AccountRepository.CommitLinkIdentity` | packages/service-cloudflare/src/account-repository.ts:1391-1454 | Links exactly when the pair is free and the version matches, and moves the version on |
| `ControlPlane.AccountRepository.CommitUnlinkIdentity` | packages/service-cloudflare/src/account-repository.ts:1456-1538 | Exactly the target identity becomes inactive, the remaining one stays, and the version moves on |
| `ControlPlane.AccountRepository.ResolveCanonicalAccount` | packages/service/src/account.ts:1637-1650 | The alias loop with its visited set and depth limit ends where the chain of alias rows leads |
| `ControlPlane.AccountRepository.AuthorizeCredential` | packages/service/src/account.ts:543-566 | Authorizes exactly an unblocked canonical account at this version with this active identity |

## Left out

- HTTP routing, request and response plumbing, URL signing, tracing, drivers of the database, the bucket and IndexedDB, the command line, user interface and sign-in flows: input and output only.
- The older direct-upload functions and the `direct_upload_sessions` table: not wired into the Space actor. The deletion of session rows inside the publication batch is therefore absent too.
- The ready column and the ready cache: rows are always ready once committed, and the cache is never consulted.
- Configurable node limits in lease evaluation: the model uses the defaults; the codec itself is proved for any limits.
- Temporary objects may leak: a URL that is still valid can be used again after publication. Nothing is claimed about it.
- Progress after a crash that leaves a validated upload record whose temporary object is gone, and a bound on the number of upload records: the orphan-recovery path skips the limit, so neither is claimed.
- Usage repair as an action of the actor's schedule: it is an action of the store's runs and a method of `UsageTables`, but the schedule of `SpaceActor` does not call it.
- General CBOR: the decoder model reads the item kinds an index can contain (unsigned integers, text, arrays, maps with text keys, heads of definite length); anything else is refused while parsing, where the client code refuses it by comparing bytes.
- JSON text: canonical change texts and stored event texts are the entries themselves, and their digest is some function of the entries; duplicate-key scanning and cursor encodings are not modelled.
- Retention calls of the blob client, root updates between the requests of one upload, and the expiry of upload URLs: a key can be put to at any time.
- Root references of other Apps, the cutover check, and the older per-domain tables.
- IndexedDB failures, cross-tab channels and abort signals of the browser cache; a persisted copy is what the database happens to return.
- Profiles, display names, email contacts, email constraints, idempotency records and the snapshot counter of the control plane; App invitations, of which only the membership they give is modelled. Platform invitations are modelled.
- Email challenges, snapshot paging of accounts, OAuth, id generation, error texts and schemas.
- UsageTables.SpaceTables.SelectRows: one Space, so the order by App and Space of the selection is absent.
- UsageTables.SpaceTables.ReconcileUsageObservations: one Space, so the order by App and Space of its rows is absent.
- AppGc.CollectSpace: states its result for a sweep between whose requests no other gated operation runs; `AppGc.Sweep` assumes nothing about the answers.
