// What each storage action changes, row by row and column by column, said without its
// statements: whatever an admitted action does not name stays as it was.
module SpaceEffects {
  import opened Prelude
  import opened UsageProjection
  import opened Codec
  import opened SpaceStore
  import opened SpaceInvariant

  // Only the tables the usage triggers watch may differ.
  ghost predicate OnlyTables(s: Store, s': Store) {
    s' == s.(tables := s'.tables)
  }

  ghost predicate OnlyNodes(s: Store, s': Store) {
    OnlyTables(s, s') && s'.tables.reservations == s.tables.reservations
  }

  ghost predicate IsRecordOf(s: Store, hash: Hash, generation: Key) {
    hash in s.uploads && s.uploads[hash].generation == generation
  }

  ghost predicate Observes(s: Store, s': Store, hash: Hash, stored: Option<nat>, at: nat) {
    && OnlyNodes(s, s')
    && s'.tables.nodes == if hash in s.tables.nodes
                          then s.tables.nodes[hash := s.tables.nodes[hash].(storedBytes := stored, observedAt := Some(at))]
                          else s.tables.nodes
  }

  ghost predicate Renews(s: Store, s': Store, hash: Hash, lease: Lease) {
    && OnlyNodes(s, s') && hash in s.tables.nodes
    && s'.tables.nodes ==
       s.tables.nodes[hash := s.tables.nodes[hash].(leaseStartedAt := lease.startedAt, leaseExpiresAt := lease.expiresAt)]
  }

  // The superseded record's temporary key is queued for the time that record was kept until.
  ghost predicate Supersedes(s: Store, s': Store, hash: Hash, generation: Key, upload: Upload) {
    if IsRecordOf(s, hash, generation)
    then
      && s' == s.(uploads := s'.uploads, cleanup := s'.cleanup)
      && s'.uploads == s.uploads[hash := upload]
      && s'.cleanup == s.cleanup[s.uploads[hash].temporaryKey := s.uploads[hash].cleanupAt]
    else s' == s
  }

  // A reservation of the content's length until the record is cleaned up.
  ghost predicate Reserves(s: Store, s': Store, hash: Hash, generation: Key, v: Validation, content: bytes) {
    if IsRecordOf(s, hash, generation)
    then
      && s' == s.(uploads := s'.uploads, tables := s'.tables) && s'.tables.nodes == s.tables.nodes
      && s'.uploads == s.uploads[hash := s.uploads[hash].(validation := Some(v))]
      && s'.tables.reservations ==
         s.tables.reservations[hash := Reservation(|content|, s.uploads[hash].createdAt, s.uploads[hash].cleanupAt)]
    else s' == s
  }

  ghost function Places(refs: seq<Hash>, child: Hash): set<nat> {
    set k: nat | k < |refs| && refs[k] == child
  }

  // The new row holds the size and type read from the node, the lease, the length stored and the
  // time, and no references to it; each child gains a reference for every place it is named in.
  ghost predicate Publishes(s: Store, s': Store, hash: Hash, v: Validation, lease: Lease, at: nat) {
    var nodes, nodes' := s.tables.nodes, s'.tables.nodes;
    && s' == s.(tables := s'.tables, edges := s'.edges)
    && s'.tables.reservations == s.tables.reservations - {hash}
    && (forall e :: e in s'.edges <==>
          e in s.edges
          || (e.parent == hash && e.ordinal < |v.metadata.refs| && e.child == v.metadata.refs[e.ordinal]))
    && nodes'.Keys == nodes.Keys + {hash}
    && nodes'[hash] == NodeRow(
         contentSize := v.metadata.contentSize, contentType := v.metadata.contentType,
         leaseStartedAt := lease.startedAt, leaseExpiresAt := lease.expiresAt,
         childRefCount := 0, rootRefCount := 0, storedBytes := Some(v.storedBytes), observedAt := Some(at))
    && forall h :: h in nodes ==>
         nodes'[h] == nodes[h].(childRefCount := nodes[h].childRefCount + |Places(v.metadata.refs, h)|)
  }

  // The row and its edges are gone; each child loses a reference for every edge to it.
  ghost predicate Unpublishes(s: Store, s': Store, hash: Hash) {
    var nodes, nodes' := s.tables.nodes, s'.tables.nodes;
    && s' == s.(tables := s'.tables, edges := s'.edges)
    && s'.tables.reservations == s.tables.reservations
    && (forall e :: e in s'.edges <==> e in s.edges && e.parent != hash)
    && nodes'.Keys == nodes.Keys - {hash}
    && forall h :: h in nodes' ==>
         nodes'[h] == nodes[h].(childRefCount := nodes[h].childRefCount - |Between(s.edges, hash, h)|)
  }

  // Every node named has its root count moved by the number beside its name.
  ghost predicate MovesRoots(s: Store, s': Store, entries: seq<(Hash, int)>) {
    var nodes, nodes' := s.tables.nodes, s'.tables.nodes;
    && OnlyNodes(s, s') && nodes'.Keys == nodes.Keys
    && (forall i :: 0 <= i < |entries| ==>
          && entries[i].0 in nodes
          && nodes'[entries[i].0] == nodes[entries[i].0].(rootRefCount := nodes[entries[i].0].rootRefCount + entries[i].1))
    && forall h :: h in nodes && (forall i :: 0 <= i < |entries| ==> entries[i].0 != h) ==> nodes'[h] == nodes[h]
  }

  ghost predicate Effect(s: Store, s': Store, a: Action) {
    match a
    case PutTemporary(key, content) =>
      s' == if key in s.temporary then s else s.(temporary := s.temporary[key := content])
    case Observe(hash, stored, at) => Observes(s, s', hash, stored, at)
    case RepairUsage(_) => OnlyNodes(s, s') && s'.tables.nodes == s.tables.nodes
    case RenewLease(hash, lease) => Renews(s, s', hash, lease)
    case CreateUpload(hash, upload) => s' == if hash in s.uploads then s else s.(uploads := s.uploads[hash := upload])
    case ReplaceUpload(hash, generation, upload) => Supersedes(s, s', hash, generation, upload)
    case StageValidation(hash, generation, v, content) => Reserves(s, s', hash, generation, v, content)
    case PutCanonical(hash, content) => s' == if hash in s.objects then s else s.(objects := s.objects[hash := content])
    case CommitNode(hash, v, lease, at) => Publishes(s, s', hash, v, lease, at)
    case DeleteTemporary(key) => s' == s.(temporary := s.temporary - {key})
    case AcknowledgeCleanup(key) => s' == s.(cleanup := s.cleanup - {key})
    case DeleteUpload(hash, generation) =>
      s' == if IsRecordOf(s, hash, generation) then s.(uploads := s.uploads - {hash}) else s
    case ExpireUpload(hash, generation) =>
      if IsRecordOf(s, hash, generation)
      then
        && s' == s.(uploads := s.uploads - {hash}, tables := s'.tables)
        && s'.tables.nodes == s.tables.nodes && s'.tables.reservations == s.tables.reservations - {hash}
      else s' == s
    case DeleteObject(hash, _) => s' == s.(objects := s.objects - {hash})
    case ForgetObject(hash, at) => Observes(s, s', hash, None, at)
    case CommitDeletion(hash, _) => Unpublishes(s, s', hash)
    case UpdateRoots(entries) => MovesRoots(s, s', entries)
  }

  /** What the actions' guards look at, in the columns themselves. */
  lemma GuardsInPlainTerms(s: Store, hash: Hash, cutoff: int, key: Key)
    ensures Ready(s, hash) <==> hash in s.tables.nodes && hash in s.objects
    ensures Eligible(s, cutoff, hash) <==>
            && hash in s.tables.nodes && s.tables.nodes[hash].childRefCount == 0 && s.tables.nodes[hash].rootRefCount == 0
            && s.tables.nodes[hash].leaseExpiresAt <= cutoff
            && (hash in s.tables.reservations ==> s.tables.reservations[hash].expiresAt <= cutoff)
    ensures KeyTaken(s, hash, key) <==> HasKey(s, hash, key)
  {
  }

  // Another node's record has the key.
  ghost predicate HasKey(s: Store, hash: Hash, key: Key) {
    exists other :: other in s.uploads && other != hash && s.uploads[other].temporaryKey == key
  }

  /** The unique constraints: one record per temporary key, one edge per parent and ordinal. */
  lemma UniqueKeysAbort(s: Store, hash: Hash, generation: Key, upload: Upload, e: Edge)
    ensures CreateUploadStatement(s, hash, upload) == Err(UniqueViolation)
            <==> hash !in s.uploads && HasKey(s, hash, upload.temporaryKey)
    ensures ReplaceUploadBatch(s, hash, generation, upload) == Err(UniqueViolation)
            <==> IsRecordOf(s, hash, generation) && HasKey(s, hash, upload.temporaryKey)
    ensures (exists x :: x in s.edges && x.parent == e.parent && x.ordinal == e.ordinal) ==> AddEdge(s, e) == Err(UniqueViolation)
  {
  }

  lemma {:induction false} PlacesAreEdges(parent: Hash, refs: seq<Hash>, child: Hash)
    ensures |In(EdgesFrom(parent, refs, 0), child)| == |Places(refs, child)|
  {
    var edges, places := In(EdgesFrom(parent, refs, 0), child), Places(refs, child);
    assert places == set e | e in edges :: e.ordinal by {
      forall k: nat | k in places
        ensures Edge(parent, k, child) in edges
      {
      }
    }
    SameSize(edges, places);
  }

  lemma {:induction false} SameSize(edges: set<Edge>, places: set<nat>)
    requires places == set e | e in edges :: e.ordinal
    requires forall a, b :: a in edges && b in edges && a.ordinal == b.ordinal ==> a == b
    ensures |edges| == |places|
    decreases |edges|
  {
    if edges != {} {
      var e :| e in edges;
      assert places - {e.ordinal} == set d | d in edges - {e} :: d.ordinal;
      SameSize(edges - {e}, places - {e.ordinal});
    }
  }

  lemma PublicationEffect(digest: Digest, w: World, hash: Hash, v: Validation, lease: Lease, at: nat)
    requires Inv(digest, w) && Enabled(digest, w, CommitNode(hash, v, lease, at))
    ensures Publishes(w.store, Apply(w, CommitNode(hash, v, lease, at)).store, hash, v, lease, at)
  {
    hide Consistent, ParseNode, CommitNodeBatch, RowsDescribed, MissingOnlyExpired, ObjectsAddressed, UploadsWitnessed;
    hide Witnessed, UploadsHeld;
    CommitNodeCommits(digest, w, hash, v, lease, at);
    var s, s' := w.store, Apply(w, CommitNode(hash, v, lease, at)).store;
    var refs := v.metadata.refs;
    forall e
      ensures e in EdgesFrom(hash, refs, 0) <==> e.parent == hash && e.ordinal < |refs| && e.child == refs[e.ordinal]
    {
    }
    forall h | h in s'.tables.nodes
      ensures s'.tables.nodes[h].childRefCount
              == (if h == hash then 0 else s.tables.nodes[h].childRefCount + |Places(refs, h)|)
    {
      PlacesAreEdges(hash, refs, h);
      assert In(s'.edges, h) == In(s.edges, h) + In(EdgesFrom(hash, refs, 0), h);
      assert In(s.edges, h) !! In(EdgesFrom(hash, refs, 0), h);
      if h == hash {
        assert Places(refs, hash) == {} && In(s.edges, hash) == {};
      }
    }
  }

  lemma DeletionEffect(digest: Digest, w: World, hash: Hash, children: seq<(Hash, nat)>)
    requires Inv(digest, w) && Enabled(digest, w, CommitDeletion(hash, children))
    ensures Unpublishes(w.store, Apply(w, CommitDeletion(hash, children)).store, hash)
  {
    hide Consistent, ParseNode, CommitDeletionBatch, RowsDescribed, MissingOnlyExpired, ObjectsAddressed, UploadsWitnessed;
    hide IsGrouping, UploadsHeld;
    CommitDeletionCommits(digest, w, hash, children);
    var s, s' := w.store, Apply(w, CommitDeletion(hash, children)).store;
    forall h | h in s'.tables.nodes
      ensures s'.tables.nodes[h].childRefCount == s.tables.nodes[h].childRefCount - |Between(s.edges, hash, h)|
    {
      InRemoveParent(s.edges, hash, h);
    }
  }

  lemma RootsEffect(digest: Digest, w: World, entries: seq<(Hash, int)>)
    requires Inv(digest, w) && Enabled(digest, w, UpdateRoots(entries))
    ensures MovesRoots(w.store, Apply(w, UpdateRoots(entries)).store, entries)
  {
    hide Inv, UpdateRootsBatch;
    TablesConsistent(digest, w);
    UpdateRootsCommits(w.store, entries, 0);
    UpdateRootsShape(w.store, entries, 0);
    forall i | 0 <= i < |entries|
      ensures RootDelta(entries, 0, entries[i].0) == entries[i].1
    {
      RootDeltaAt(entries, 0, i);
    }
    forall h | forall i :: 0 <= i < |entries| ==> entries[i].0 != h
      ensures RootDelta(entries, 0, h) == 0
    {
      RootDeltaAbsent(entries, 0, h);
    }
  }

  lemma TablesConsistent(digest: Digest, w: World)
    requires Inv(digest, w)
    ensures Consistent(w.store.tables)
  {
  }

  lemma RowEffect(digest: Digest, w: World, a: Action)
    requires Inv(digest, w) && Enabled(digest, w, a) && (a.Observe? || a.ForgetObject? || a.RenewLease?)
    ensures Effect(w.store, Apply(w, a).store, a)
  {
    hide Inv, UpdateNode, Consistent, ParseNode;
    StepKeepsInv(digest, w, a);
    if a.hash in w.store.tables.nodes {
      var row := w.store.tables.nodes[a.hash];
      var row' := if a.RenewLease? then row.(leaseStartedAt := a.lease.startedAt, leaseExpiresAt := a.lease.expiresAt)
                  else row.(storedBytes := if a.Observe? then a.stored else None, observedAt := Some(a.at));
      UpdateNodeShape(w.store.tables, a.hash, row');
    }
  }

  lemma StagingEffect(digest: Digest, w: World, a: Action)
    requires Inv(digest, w) && Enabled(digest, w, a) && (a.StageValidation? || a.ExpireUpload?)
    ensures Effect(w.store, Apply(w, a).store, a)
  {
    hide Inv, UpsertReservation, DeleteReservation, Consistent, ParseNode;
    StepKeepsInv(digest, w, a);
    TablesConsistent(digest, w);
    if IsCurrent(w.store, a.hash, a.generation) {
      if a.StageValidation? {
        var upload := w.store.uploads[a.hash];
        UpsertReservationKeeps(w.store.tables, a.hash, Reservation(a.validation.storedBytes, upload.createdAt, upload.cleanupAt));
      } else {
        DeleteReservationKeeps(w.store.tables, a.hash);
      }
    }
  }

  lemma PlainEffect(digest: Digest, w: World, a: Action)
    requires Inv(digest, w) && Enabled(digest, w, a)
    requires a.PutTemporary? || a.RepairUsage? || a.CreateUpload? || a.ReplaceUpload? || a.PutCanonical? || a.DeleteTemporary?
             || a.AcknowledgeCleanup? || a.DeleteUpload? || a.DeleteObject?
    ensures Effect(w.store, Apply(w, a).store, a)
  {
    hide Inv, ParseNode, Consistent;
    StepKeepsInv(digest, w, a);
    if a.RepairUsage? {
      TablesConsistent(digest, w);
      TablesAreLegal(w.store.tables);
      RepairRestores(w.store.tables, a.repairedAt);
    }
  }

  /** Every admitted action has exactly its effect. */
  lemma StepHasEffect(digest: Digest, w: World, a: Action)
    requires Inv(digest, w) && Enabled(digest, w, a)
    ensures Effect(w.store, Apply(w, a).store, a)
  {
    hide Inv, Enabled, Batch, Publishes, Unpublishes, MovesRoots;
    match a {
      case Observe(_, _, _) => RowEffect(digest, w, a);
      case ForgetObject(_, _) => RowEffect(digest, w, a);
      case RenewLease(_, _) => RowEffect(digest, w, a);
      case StageValidation(_, _, _, _) => StagingEffect(digest, w, a);
      case ExpireUpload(_, _) => StagingEffect(digest, w, a);
      case CommitNode(hash, v, lease, at) => PublicationEffect(digest, w, hash, v, lease, at);
      case CommitDeletion(hash, children) => DeletionEffect(digest, w, hash, children);
      case UpdateRoots(entries) => RootsEffect(digest, w, entries);
      case _ => PlainEffect(digest, w, a);
    }
  }

  /** Right after publication the row holds the length of the object under the hash, and the time. */
  lemma PublishedRowIsObserved(digest: Digest, w: World, hash: Hash, v: Validation, lease: Lease, at: nat)
    requires Inv(digest, w) && Enabled(digest, w, CommitNode(hash, v, lease, at)) && CollisionFree(digest, w.history.seen)
    ensures var s' := Apply(w, CommitNode(hash, v, lease, at)).store;
            && hash in s'.tables.nodes && hash in s'.objects
            && s'.tables.nodes[hash].storedBytes == Some(|s'.objects[hash]|)
            && s'.tables.nodes[hash].observedAt == Some(at)
  {
    hide Consistent, ParseNode, GraphInv, RowsDescribed, UploadsWitnessed, MissingOnlyExpired, CommitNodeBatch;
    PublicationEffect(digest, w, hash, v, lease, at);
    CommitNodeCommits(digest, w, hash, v, lease, at);
    var content :| content in w.history.seen && Describes(digest, hash, v, content);
    assert content == w.store.objects[hash];
  }
}
