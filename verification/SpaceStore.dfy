// One Space of the store: its tables, its canonical and temporary objects, and
// every atomic storage action (one database batch, or one object operation)
// that the kernels, the clients and the maintenance jobs perform on them.
//
// A kernel operation is a sequence of these actions and can stop between any
// two, so the runs of the Space are the sequences of actions whose guards hold
// when they are performed. The guards are what a kernel has established by the
// time it acts; SpaceActor proves that its kernels do establish them.
module SpaceStore {
  import opened Prelude
  import opened UsageProjection
  import opened Codec

  type Key = bytes

  // One row of the edge table.
  datatype Edge = Edge(parent: Hash, ordinal: nat, child: Hash)

  datatype Lease = Lease(startedAt: int, expiresAt: int)

  datatype Validation = Validation(storedBytes: nat, metadata: Metadata)

  datatype Rejection = OversizedUpload | DigestMismatch | InvalidUpload

  datatype Upload = Upload(
    generation: Key,
    temporaryKey: Key,
    createdAt: int,
    expiresAt: int,
    cleanupAt: int,
    rejection: Option<Rejection>,
    validation: Option<Validation>
  )

  datatype Store = Store(
    tables: Metered,
    edges: set<Edge>,
    uploads: map<Hash, Upload>,
    cleanup: map<Key, int>,
    objects: map<Hash, bytes>,
    temporary: map<Key, bytes>
  )

  // What became of a temporary object since a validation was staged for its key: the validation
  // was read from it and it is still there, it was read from the canonical object, or it was deleted.
  datatype Staging = FromUpload | FromObject | Deleted

  // What no table records: the byte strings ever hashed for this Space, the order in which live
  // nodes were inserted, the latest cutoff a collection used, and the staged temporary keys.
  datatype History = History(seen: set<bytes>, rank: map<Hash, nat>, next: nat, cutoff: int, staged: map<Key, Staging>)

  datatype World = World(store: Store, history: History)

  datatype Action =
    // clients and maintenance, at any time
    | PutTemporary(key: Key, content: bytes)
    | Observe(hash: Hash, stored: Option<nat>, at: nat)
    | RepairUsage(repairedAt: int)
    // lease evaluation
    | RenewLease(hash: Hash, lease: Lease)
    | CreateUpload(hash: Hash, upload: Upload)
    | ReplaceUpload(hash: Hash, expectedGeneration: Key, upload: Upload)
    | StageValidation(hash: Hash, generation: Key, validation: Validation, content: bytes)
    | PutCanonical(hash: Hash, content: bytes)
    | CommitNode(hash: Hash, validation: Validation, lease: Lease, at: nat)
    | DeleteTemporary(key: Key)
    | AcknowledgeCleanup(key: Key)
    | DeleteUpload(hash: Hash, generation: Key)
    | ExpireUpload(hash: Hash, generation: Key)
    // collection
    | DeleteObject(hash: Hash, cutoff: int)
    | ForgetObject(hash: Hash, at: nat)
    | CommitDeletion(hash: Hash, children: seq<(Hash, nat)>)
    // root references
    | UpdateRoots(entries: seq<(Hash, int)>)

  // ----- edges -----

  ghost function In(edges: set<Edge>, child: Hash): set<Edge> {
    set e | e in edges && e.child == child
  }

  ghost function Out(edges: set<Edge>, parent: Hash): set<Edge> {
    set e | e in edges && e.parent == parent
  }

  ghost function Between(edges: set<Edge>, parent: Hash, child: Hash): set<Edge> {
    set e | e in edges && e.parent == parent && e.child == child
  }

  // The rows that record `refs`, from ordinal `i` on.
  ghost function EdgesFrom(parent: Hash, refs: seq<Hash>, i: nat): set<Edge> {
    set k | i <= k < |refs| :: Edge(parent, k, refs[k])
  }

  /** SELECT child_hash, COUNT(*) ... GROUP BY child_hash: each child once, with its multiplicity. */
  ghost predicate IsGrouping(edges: set<Edge>, parent: Hash, children: seq<(Hash, nat)>) {
    && (forall i, j :: 0 <= i < j < |children| ==> children[i].0 != children[j].0)
    && (forall i :: 0 <= i < |children| ==> children[i].1 == |Between(edges, parent, children[i].0)|)
    && (forall e :: e in edges && e.parent == parent ==> exists i :: 0 <= i < |children| && children[i].0 == e.child)
  }

  // ----- batches -----

  function WithTables(s: Store, r: Result<Metered, Abort>): Result<Store, Abort> {
    match r
    case Ok(tables) => Ok(s.(tables := tables))
    case Err(abort) => Err(abort)
  }

  // UPDATE cas_nodes SET child_ref_count = child_ref_count + delta
  function ShiftChildCount(s: Store, hash: Hash, delta: int): Result<Store, Abort> {
    if hash !in s.tables.nodes then Ok(s)
    else
      var row := s.tables.nodes[hash];
      WithTables(s, UpdateNode(s.tables, hash, row.(childRefCount := row.childRefCount + delta)))
  }

  function ShiftRootCount(s: Store, hash: Hash, delta: int): Result<Store, Abort> {
    if hash !in s.tables.nodes then Ok(s)
    else
      var row := s.tables.nodes[hash];
      WithTables(s, UpdateNode(s.tables, hash, row.(rootRefCount := row.rootRefCount + delta)))
  }

  function AddEdge(s: Store, e: Edge): Result<Store, Abort> {
    if exists x :: x in s.edges && x.parent == e.parent && x.ordinal == e.ordinal then Err(UniqueViolation)
    else ShiftChildCount(s.(edges := s.edges + {e}), e.child, 1)
  }

  function AddEdges(s: Store, parent: Hash, refs: seq<Hash>, i: nat): Result<Store, Abort>
    requires i <= |refs|
    decreases |refs| - i
  {
    if i == |refs| then Ok(s)
    else
      var added :- AddEdge(s, Edge(parent, i, refs[i]));
      AddEdges(added, parent, refs, i + 1)
  }

  function NewRow(validation: Validation, lease: Lease, at: nat): NodeRow {
    NodeRow(validation.metadata.contentSize, validation.metadata.contentType, lease.startedAt, lease.expiresAt,
            0, 0, Some(validation.storedBytes), Some(at))
  }

  // Insert the node, its edges and the children's counts, and drop its reservation.
  function CommitNodeBatch(s: Store, hash: Hash, validation: Validation, lease: Lease, at: nat): Result<Store, Abort> {
    var inserted :- WithTables(s, InsertNode(s.tables, hash, NewRow(validation, lease, at)));
    var linked :- AddEdges(inserted, hash, validation.metadata.refs, 0);
    WithTables(linked, DeleteReservation(linked.tables, hash))
  }

  function DropReferences(s: Store, children: seq<(Hash, nat)>, i: nat): Result<Store, Abort>
    requires i <= |children|
    decreases |children| - i
  {
    if i == |children| then Ok(s)
    else
      var dropped :- ShiftChildCount(s, children[i].0, -(children[i].1 as int));
      DropReferences(dropped, children, i + 1)
  }

  // Delete the node's edges and row, and take its references off its children.
  function CommitDeletionBatch(s: Store, hash: Hash, children: seq<(Hash, nat)>): Result<Store, Abort> {
    var unlinked := s.(edges := set e | e in s.edges && e.parent != hash);
    var deleted :- WithTables(unlinked, DeleteNode(unlinked.tables, hash));
    DropReferences(deleted, children, 0)
  }

  function UpdateRootsBatch(s: Store, entries: seq<(Hash, int)>, i: nat): Result<Store, Abort>
    requires i <= |entries|
    decreases |entries| - i
  {
    if i == |entries| then Ok(s)
    else
      var updated :- ShiftRootCount(s, entries[i].0, entries[i].1);
      UpdateRootsBatch(updated, entries, i + 1)
  }

  // The record read for a generation is still the current one.
  predicate IsCurrent(s: Store, hash: Hash, generation: Key) {
    hash in s.uploads && s.uploads[hash].generation == generation
  }

  // UNIQUE (temporary_object_key): another node's record has the key.
  predicate KeyTaken(s: Store, hash: Hash, key: Key) {
    exists h :: h in s.uploads && h != hash && s.uploads[h].temporaryKey == key
  }

  // INSERT ... ON CONFLICT (hash) DO NOTHING
  function CreateUploadStatement(s: Store, hash: Hash, upload: Upload): Result<Store, Abort> {
    if hash in s.uploads then Ok(s)
    else if KeyTaken(s, hash, upload.temporaryKey) then Err(UniqueViolation)
    else Ok(s.(uploads := s.uploads[hash := upload]))
  }

  function ReplaceUploadBatch(s: Store, hash: Hash, expectedGeneration: Key, upload: Upload): Result<Store, Abort> {
    if !IsCurrent(s, hash, expectedGeneration) then Ok(s)
    else if KeyTaken(s, hash, upload.temporaryKey) then Err(UniqueViolation)
    else
      var superseded := s.uploads[hash];
      Ok(s.(cleanup := s.cleanup[superseded.temporaryKey := superseded.cleanupAt],
            uploads := s.uploads[hash := upload]))
  }

  // An upload URL is signed for If-None-Match: *, so a PUT never replaces an object.
  function PutOnce(temporary: map<Key, bytes>, key: Key, content: bytes): map<Key, bytes> {
    if key in temporary then temporary else temporary[key := content]
  }

  function StageValidationBatch(s: Store, hash: Hash, generation: Key, validation: Validation): Result<Store, Abort> {
    if !IsCurrent(s, hash, generation) then Ok(s)
    else
      var upload := s.uploads[hash].(validation := Some(validation));
      var reservation := Reservation(validation.storedBytes, upload.createdAt, upload.cleanupAt);
      WithTables(s.(uploads := s.uploads[hash := upload]), UpsertReservation(s.tables, hash, reservation))
  }

  function ExpireUploadBatch(s: Store, hash: Hash, generation: Key): Result<Store, Abort> {
    if !IsCurrent(s, hash, generation) then Ok(s)
    else WithTables(s.(uploads := s.uploads - {hash}), DeleteReservation(s.tables, hash))
  }

  // UPDATE cas_nodes SET canonical_stored_bytes = stored, canonical_observed_at = at
  function ObserveStatement(s: Store, hash: Hash, stored: Option<nat>, at: nat): Result<Store, Abort> {
    if hash !in s.tables.nodes then Ok(s)
    else
      WithTables(s, UpdateNode(s.tables, hash,
                               s.tables.nodes[hash].(storedBytes := stored, observedAt := Some(at))))
  }

  function RenewLeaseStatement(s: Store, hash: Hash, lease: Lease): Result<Store, Abort> {
    if hash !in s.tables.nodes then Ok(s)
    else
      WithTables(s, UpdateNode(s.tables, hash,
                               s.tables.nodes[hash].(leaseStartedAt := lease.startedAt, leaseExpiresAt := lease.expiresAt)))
  }

  ghost function Batch(s: Store, a: Action): Result<Store, Abort> {
    match a
    case PutTemporary(key, content) => Ok(s.(temporary := PutOnce(s.temporary, key, content)))
    case Observe(hash, stored, at) => ObserveStatement(s, hash, stored, at)
    case RepairUsage(at) => Ok(s.(tables := RepairBatch(s.tables, at)))
    case RenewLease(hash, lease) => RenewLeaseStatement(s, hash, lease)
    case CreateUpload(hash, upload) => CreateUploadStatement(s, hash, upload)
    case ReplaceUpload(hash, generation, upload) => ReplaceUploadBatch(s, hash, generation, upload)
    case StageValidation(hash, generation, validation, _) => StageValidationBatch(s, hash, generation, validation)
    case PutCanonical(hash, content) => Ok(if hash in s.objects then s else s.(objects := s.objects[hash := content]))
    case CommitNode(hash, validation, lease, at) => CommitNodeBatch(s, hash, validation, lease, at)
    case DeleteTemporary(key) => Ok(s.(temporary := s.temporary - {key}))
    case AcknowledgeCleanup(key) => Ok(s.(cleanup := s.cleanup - {key}))
    case DeleteUpload(hash, generation) =>
      Ok(if IsCurrent(s, hash, generation) then s.(uploads := s.uploads - {hash}) else s)
    case ExpireUpload(hash, generation) => ExpireUploadBatch(s, hash, generation)
    case DeleteObject(hash, _) => Ok(s.(objects := s.objects - {hash}))
    case ForgetObject(hash, at) => ObserveStatement(s, hash, None, at)
    case CommitDeletion(hash, children) => CommitDeletionBatch(s, hash, children)
    case UpdateRoots(entries) => UpdateRootsBatch(s, entries, 0)
  }

  ghost function Recorded(w: World, a: Action): History {
    var history := w.history;
    match a
    case StageValidation(hash, generation, _, content) =>
      history.(seen := history.seen + {content}, staged := StagedKeys(w, hash, generation, content))
    case DeleteTemporary(key) =>
      history.(staged := if key in history.staged then history.staged[key := Deleted] else history.staged)
    case PutCanonical(_, content) => history.(seen := history.seen + {content})
    case CommitNode(hash, _, _, _) => history.(rank := history.rank[hash := history.next], next := history.next + 1)
    case CommitDeletion(hash, _) => history.(rank := history.rank - {hash})
    case DeleteObject(_, cutoff) => history.(cutoff := Max(history.cutoff, cutoff))
    case _ => history
  }

  ghost function StagedKeys(w: World, hash: Hash, generation: Key, content: bytes): map<Key, Staging> {
    if !IsCurrent(w.store, hash, generation) then w.history.staged
    else
      var key := w.store.uploads[hash].temporaryKey;
      w.history.staged[key := if key in w.store.temporary && w.store.temporary[key] == content then FromUpload else FromObject]
  }

  // An aborted batch changes nothing.
  ghost function Apply(w: World, a: Action): World {
    match Batch(w.store, a)
    case Ok(s) => World(s, Recorded(w, a))
    case Err(_) => w
  }

  // ----- guards -----

  predicate Ready(s: Store, hash: Hash) {
    hash in s.tables.nodes && hash in s.objects
  }

  // The metadata describes bytes that were hashed and have this digest.
  ghost predicate Witnessed(digest: Digest, seen: set<bytes>, hash: Hash, v: Validation) {
    exists content :: content in seen && Describes(digest, hash, v, content)
  }

  ghost predicate Describes(digest: Digest, hash: Hash, v: Validation, content: bytes) {
    digest(content) == hash && |content| == v.storedBytes && ParseNode(content, DEFAULT_LIMITS) == Ok(v.metadata)
  }

  predicate Unreferenced(row: NodeRow) {
    row.childRefCount == 0 && row.rootRefCount == 0
  }

  predicate Reserved(s: Store, cutoff: int, hash: Hash) {
    hash in s.tables.reservations && s.tables.reservations[hash].expiresAt > cutoff
  }

  // The rows a collection looks for: no references, lease over, no live reservation.
  predicate Eligible(s: Store, cutoff: int, hash: Hash) {
    hash in s.tables.nodes && Unreferenced(s.tables.nodes[hash])
    && s.tables.nodes[hash].leaseExpiresAt <= cutoff && !Reserved(s, cutoff, hash)
  }

  ghost predicate LegalRootUpdate(s: Store, entries: seq<(Hash, int)>) {
    && (forall i, j :: 0 <= i < j < |entries| ==> entries[i].0 != entries[j].0)
    && forall i :: 0 <= i < |entries| ==>
         var (hash, delta) := entries[i];
         && hash in s.tables.nodes
         && s.tables.nodes[hash].rootRefCount + delta >= 0
         && (delta > 0 ==> hash in s.objects)
  }

  ghost predicate Enabled(digest: Digest, w: World, a: Action) {
    var s := w.store;
    var nodes := s.tables.nodes;
    match a
    case Observe(hash, stored, _) =>
      stored.Some? ==> exists content :: content in w.history.seen && digest(content) == hash && |content| == stored.value
    case RenewLease(hash, lease) =>
      && Ready(s, hash) && lease.startedAt <= lease.expiresAt
      && nodes[hash].leaseStartedAt <= lease.startedAt && nodes[hash].leaseExpiresAt <= lease.expiresAt
    case CreateUpload(hash, upload) =>
      upload.validation.None? && (hash in s.uploads || !KeyTaken(s, hash, upload.temporaryKey))
    case ReplaceUpload(hash, generation, upload) =>
      upload.validation.None? && (IsCurrent(s, hash, generation) ==> !KeyTaken(s, hash, upload.temporaryKey))
    case StageValidation(hash, _, v, content) => Describes(digest, hash, v, content)
    case PutCanonical(hash, content) => digest(content) == hash
    case CommitNode(hash, v, lease, _) =>
      && hash !in nodes && hash in s.objects
      && Witnessed(digest, w.history.seen, hash, v)
      && lease.startedAt <= lease.expiresAt
      && forall i :: 0 <= i < |v.metadata.refs| ==> Ready(s, v.metadata.refs[i])
    case DeleteObject(hash, cutoff) =>
      hash in nodes && Unreferenced(nodes[hash]) && nodes[hash].leaseExpiresAt <= cutoff
    case CommitDeletion(hash, children) =>
      && hash in nodes && Unreferenced(nodes[hash]) && hash !in s.objects
      && IsGrouping(s.edges, hash, children)
    case UpdateRoots(entries) => LegalRootUpdate(s, entries)
    case _ => true
  }

  // ----- the invariant -----

  // Counts are exact, edges are closed, and ranks strictly decrease along edges.
  ghost predicate ExactCounts(nodes: map<Hash, NodeRow>, edges: set<Edge>) {
    forall h :: h in nodes ==> nodes[h].childRefCount == |In(edges, h)|
  }

  ghost predicate ClosedAndRanked(nodes: map<Hash, NodeRow>, edges: set<Edge>, rank: map<Hash, nat>, next: nat) {
    && (forall h :: h in nodes ==> h in rank && rank[h] < next)
    && (forall e :: e in edges ==>
          e.parent in nodes && e.child in nodes && rank[e.child] < rank[e.parent])
  }

  ghost predicate RowDescribed(digest: Digest, seen: set<bytes>, edges: set<Edge>, hash: Hash, row: NodeRow) {
    exists content :: content in seen && RowDescribes(digest, edges, hash, row, content)
  }

  ghost predicate RowDescribes(digest: Digest, edges: set<Edge>, hash: Hash, row: NodeRow, content: bytes) {
    && digest(content) == hash
    && ParseNode(content, DEFAULT_LIMITS).Ok?
    && var m := ParseNode(content, DEFAULT_LIMITS).value;
       row.contentSize == m.contentSize && row.contentType == m.contentType
       && Out(edges, hash) == EdgesFrom(hash, m.refs, 0)
  }

  ghost predicate LengthSeen(digest: Digest, seen: set<bytes>, hash: Hash, length: nat) {
    exists content :: content in seen && digest(content) == hash && |content| == length
  }

  ghost predicate RowsDescribed(digest: Digest, w: World) {
    forall h :: h in w.store.tables.nodes ==>
      var row := w.store.tables.nodes[h];
      && RowDescribed(digest, w.history.seen, w.store.edges, h, row)
      && (row.storedBytes.Some? ==> LengthSeen(digest, w.history.seen, h, row.storedBytes.value))
  }

  ghost predicate ObjectsAddressed(digest: Digest, w: World) {
    forall h :: h in w.store.objects ==>
      w.store.objects[h] in w.history.seen && digest(w.store.objects[h]) == h
  }

  ghost predicate UploadsWitnessed(digest: Digest, w: World) {
    forall h :: h in w.store.uploads && w.store.uploads[h].validation.Some? ==>
      Witnessed(digest, w.history.seen, h, w.store.uploads[h].validation.value)
  }

  ghost predicate DistinctKeys(uploads: map<Hash, Upload>) {
    forall a, b :: a in uploads && b in uploads && a != b ==> uploads[a].temporaryKey != uploads[b].temporaryKey
  }

  // The temporary object a validation was read from is there, with the digest, until its key is deleted.
  ghost predicate ValidatedHeld(digest: Digest, w: World, hash: Hash, key: Key) {
    && key in w.history.staged
    && (w.history.staged[key].FromUpload? ==> key in w.store.temporary && digest(w.store.temporary[key]) == hash)
  }

  ghost predicate UploadsHeld(digest: Digest, w: World) {
    && DistinctKeys(w.store.uploads)
    && forall h :: h in w.store.uploads && w.store.uploads[h].validation.Some? ==>
         ValidatedHeld(digest, w, h, w.store.uploads[h].temporaryKey)
  }

  // A row whose object is gone is one a collection was entitled to delete.
  ghost predicate MissingOnlyExpired(w: World) {
    forall h :: h in w.store.tables.nodes && h !in w.store.objects ==>
      Unreferenced(w.store.tables.nodes[h]) && w.store.tables.nodes[h].leaseExpiresAt <= w.history.cutoff
  }

  ghost predicate LeasesOrdered(nodes: map<Hash, NodeRow>) {
    forall h :: h in nodes ==> nodes[h].leaseStartedAt <= nodes[h].leaseExpiresAt
  }

  ghost predicate GraphInv(w: World) {
    && ExactCounts(w.store.tables.nodes, w.store.edges)
    && ClosedAndRanked(w.store.tables.nodes, w.store.edges, w.history.rank, w.history.next)
  }

  ghost predicate Inv(digest: Digest, w: World) {
    && Consistent(w.store.tables)
    && GraphInv(w)
    && RowsDescribed(digest, w)
    && ObjectsAddressed(digest, w)
    && UploadsWitnessed(digest, w)
    && UploadsHeld(digest, w)
    && MissingOnlyExpired(w)
    && LeasesOrdered(w.store.tables.nodes)
  }

  const EMPTY_STORE := Store(Metered(map[], map[], None), {}, map[], map[], map[], map[])

  function EmptyWorld(cutoff: int): World {
    World(EMPTY_STORE, History({}, map[], 0, cutoff, map[]))
  }

  lemma EmptyWorldInv(digest: Digest, cutoff: int)
    ensures Inv(digest, EmptyWorld(cutoff))
  {
  }
}
