// The one way a validated upload can end up over bytes that are not the node's: its
// temporary object was deleted, its record was not, and the URL that is still valid
// takes other bytes once the published node has been collected again.
module FreedKey {
  import opened Prelude
  import opened Codec
  import opened SpaceStore
  import opened SpaceInvariant
  import opened SpaceTheorems
  import opened SpaceActor

  const KEY: Key := [1]

  // Created at second 1 with a session of 300 seconds.
  const RECORD := Upload([0], KEY, 1000, 301000, 86701000, None, None)

  // Published at second 2 for the shortest lease, and collected at second 70.
  const LEASE := Lease(2000, 2000 + MIN_LEASE_MS)
  const CUTOFF: int := 70000

  ghost predicate Leaf(digest: Digest, hash: Hash, v: Validation, content: bytes) {
    Describes(digest, hash, v, content) && v.metadata.refs == []
  }

  ghost predicate Recorded(s: Store, hash: Hash, v: Validation) {
    s.uploads == map[hash := RECORD.(validation := Some(v))] && s.edges == {}
  }

  lemma UploadLeaf(digest: Digest, hash: Hash, content: bytes) returns (w: World, log: seq<Action>)
    ensures IsRun(digest, EmptyWorld(0), log) && Exec(EmptyWorld(0), log) == w && Inv(digest, w)
    ensures w.store == EMPTY_STORE.(uploads := map[hash := RECORD], temporary := map[KEY := content])
  {
    hide Inv;
    EmptyWorldInv(digest, 0);
    var create, put := CreateUpload(hash, RECORD), PutTemporary(KEY, content);
    RunAdvances(digest, EmptyWorld(0), [], EmptyWorld(0), create);
    w := Apply(EmptyWorld(0), create);
    RunAdvances(digest, EmptyWorld(0), [] + [create], w, put);
    w, log := Apply(w, put), [] + [create] + [put];
  }

  lemma StageLeaf(digest: Digest, before: World, hash: Hash, v: Validation, content: bytes, soFar: seq<Action>)
    returns (w: World, log: seq<Action>)
    requires IsRun(digest, EmptyWorld(0), soFar) && Exec(EmptyWorld(0), soFar) == before && Inv(digest, before)
    requires before.store == EMPTY_STORE.(uploads := map[hash := RECORD], temporary := map[KEY := content])
    requires Leaf(digest, hash, v, content)
    ensures IsRun(digest, EmptyWorld(0), log) && Exec(EmptyWorld(0), log) == w && Inv(digest, w)
    ensures Recorded(w.store, hash, v) && w.store.tables.nodes == map[] && Witnessed(digest, w.history.seen, hash, v)
    ensures w.store.objects == map[hash := content]
  {
    hide Inv, StageValidationBatch, Describes;
    var stage, put := StageValidation(hash, RECORD.generation, v, content), PutCanonical(hash, content);
    StepKeepsInv(digest, before, stage);
    StageValidationShape(before.store, hash, RECORD.generation, v);
    StagedUploads(before.store, hash, RECORD.generation, v);
    RunAdvances(digest, EmptyWorld(0), soFar, before, stage);
    w := Apply(before, stage);
    RunAdvances(digest, EmptyWorld(0), soFar + [stage], w, put) by {
      assert digest(content) == hash by { DescribedDigest(digest, hash, v, content); }
    }
    w, log := Apply(w, put), soFar + [stage] + [put];
    assert content in w.history.seen;
  }

  lemma DescribedDigest(digest: Digest, hash: Hash, v: Validation, content: bytes)
    requires Describes(digest, hash, v, content)
    ensures digest(content) == hash
  {
  }

  // Publishing a leaf leaves one row without references, leased as granted.
  lemma LeafPublishes(digest: Digest, w: World, hash: Hash, v: Validation, lease: Lease)
    requires Inv(digest, w) && Enabled(digest, w, CommitNode(hash, v, lease, 0))
    requires w.store.edges == {} && v.metadata.refs == [] && w.store.tables.nodes == map[]
    ensures var s' := Apply(w, CommitNode(hash, v, lease, 0)).store;
            && s' == w.store.(tables := s'.tables) && s'.tables.nodes.Keys == {hash}
            && hash !in s'.tables.reservations && Unreferenced(s'.tables.nodes[hash])
            && s'.tables.nodes[hash].leaseExpiresAt == lease.expiresAt
  {
    hide Inv, CommitNodeBatch, Witnessed;
    CommitNodeCommits(digest, w, hash, v, lease, 0);
    var s' := Apply(w, CommitNode(hash, v, lease, 0)).store;
    assert In(s'.edges, hash) == {};
    assert s'.tables.nodes[hash].childRefCount == 0;
  }

  // The record stays: the call that would delete it fails.
  lemma PublishLeaf(digest: Digest, before: World, hash: Hash, v: Validation, content: bytes, soFar: seq<Action>)
    returns (w: World, log: seq<Action>)
    requires IsRun(digest, EmptyWorld(0), soFar) && Exec(EmptyWorld(0), soFar) == before && Inv(digest, before)
    requires Recorded(before.store, hash, v) && v.metadata.refs == [] && before.store.tables.nodes == map[]
    requires Witnessed(digest, before.history.seen, hash, v) && before.store.objects == map[hash := content]
    ensures IsRun(digest, EmptyWorld(0), log) && Exec(EmptyWorld(0), log) == w && Inv(digest, w)
    ensures Recorded(w.store, hash, v) && w.store.tables.nodes.Keys == {hash} && KEY !in w.store.temporary
    ensures Unreferenced(w.store.tables.nodes[hash]) && w.store.tables.nodes[hash].leaseExpiresAt <= CUTOFF
    ensures hash !in w.store.tables.reservations && w.store.objects == map[hash := content]
  {
    hide Inv, CommitNodeBatch, Witnessed, IsRun, Exec;
    var commit, delete := CommitNode(hash, v, LEASE, 0), DeleteTemporary(KEY);
    LeafPublishes(digest, before, hash, v, LEASE);
    RunAdvances(digest, EmptyWorld(0), soFar, before, commit);
    w := Apply(before, commit);
    RunAdvances(digest, EmptyWorld(0), soFar + [commit], w, delete);
    DeletesTemporary(w);
    w, log := Apply(w, delete), soFar + [commit] + [delete];
  }

  lemma DeletesTemporary(w: World)
    ensures Apply(w, DeleteTemporary(KEY)).store == w.store.(temporary := w.store.temporary - {KEY})
  {
  }

  lemma DropContent(digest: Digest, before: World, hash: Hash, v: Validation, soFar: seq<Action>)
    returns (w: World, log: seq<Action>)
    requires IsRun(digest, EmptyWorld(0), soFar) && Exec(EmptyWorld(0), soFar) == before && Inv(digest, before)
    requires Recorded(before.store, hash, v) && before.store.tables.nodes.Keys == {hash} && KEY !in before.store.temporary
    requires before.store.objects.Keys == {hash} && Eligible(before.store, CUTOFF, hash)
    ensures IsRun(digest, EmptyWorld(0), log) && Exec(EmptyWorld(0), log) == w && Inv(digest, w)
    ensures Recorded(w.store, hash, v) && w.store.tables.nodes.Keys == {hash} && KEY !in w.store.temporary
    ensures w.store.objects == map[] && Unreferenced(w.store.tables.nodes[hash])
  {
    hide Inv, ObserveStatement;
    var drop, forget := DeleteObject(hash, CUTOFF), ForgetObject(hash, 0);
    RunAdvances(digest, EmptyWorld(0), soFar, before, drop);
    w := Apply(before, drop);
    StepKeepsInv(digest, w, forget);
    ObserveShape(w.store, hash, None, 0);
    RunAdvances(digest, EmptyWorld(0), soFar + [drop], w, forget);
    w, log := Apply(w, forget), soFar + [drop] + [forget];
  }

  lemma CollectAndReuse(digest: Digest, before: World, hash: Hash, v: Validation, other: bytes, soFar: seq<Action>)
    returns (w: World, log: seq<Action>)
    requires IsRun(digest, EmptyWorld(0), soFar) && Exec(EmptyWorld(0), soFar) == before && Inv(digest, before)
    requires Recorded(before.store, hash, v) && before.store.tables.nodes.Keys == {hash} && KEY !in before.store.temporary
    requires before.store.objects == map[] && Unreferenced(before.store.tables.nodes[hash])
    ensures IsRun(digest, EmptyWorld(0), log) && Exec(EmptyWorld(0), log) == w && Inv(digest, w)
    ensures Recorded(w.store, hash, v) && w.store.tables.nodes == map[] && w.store.objects == map[]
    ensures KEY in w.store.temporary && w.store.temporary[KEY] == other
  {
    hide Inv, CommitDeletionBatch;
    var collect, put := CommitDeletion(hash, []), PutTemporary(KEY, other);
    CommitDeletionCommits(digest, before, hash, []);
    RunAdvances(digest, EmptyWorld(0), soFar, before, collect);
    w := Apply(before, collect);
    assert w.store.tables.nodes.Keys == {};
    RunAdvances(digest, EmptyWorld(0), soFar + [collect], w, put);
    w, log := Apply(w, put), soFar + [collect] + [put];
  }

  /**
   * A freed key can be used again: a run of admitted actions leaves a validated record, with no row
   * and no canonical object, whose temporary object holds bytes with another digest. Every undisturbed
   * evaluation of the node fails from there on, although all its references are ready.
   */
  lemma FreedKeyIsReused(digest: Digest, node: Node, other: bytes) returns (w: World, log: seq<Action>)
    requires LegalNode(node, DEFAULT_LIMITS) && node.refs == [] && digest(other) != digest(Encode(node))
    ensures IsRun(digest, EmptyWorld(0), log) && Exec(EmptyWorld(0), log) == w && Inv(digest, w)
    ensures var hash := digest(Encode(node));
            && hash !in w.store.tables.nodes && hash !in w.store.objects
            && hash in w.store.uploads && w.store.uploads[hash].validation.Some?
            && w.store.uploads[hash].validation.value.metadata.refs == []
            && w.store.uploads[hash].temporaryKey in w.store.temporary
            && w.store.temporary[w.store.uploads[hash].temporaryKey] == other
            && forall s', successor, now, r ::
                 Progresses(digest, w.store, s', hash, w.store.uploads[hash], successor, now, r) ==> r.Failed?
  {
    hide Inv, IsRun, Exec, Encode, LegalNode, ParseNode, Progresses;
    var content, hash := Encode(node), digest(Encode(node));
    LegalNodeIsAcceptable(digest, node);
    var v := Validation(|content|, ParseNode(content, DEFAULT_LIMITS).value);
    w, log := UploadLeaf(digest, hash, content);
    w, log := StageLeaf(digest, w, hash, v, content, log);
    w, log := PublishLeaf(digest, w, hash, v, content, log);
    w, log := DropContent(digest, w, hash, v, log);
    w, log := CollectAndReuse(digest, w, hash, v, other, log);
    forall s', successor, now, r | Progresses(digest, w.store, s', hash, w.store.uploads[hash], successor, now, r)
      ensures r.Failed?
    {
      PublishesIffHeld(digest, w.store, s', hash, successor, now, r);
    }
  }
}
