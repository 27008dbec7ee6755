// A blob kept in a Space: what the read API shows of the Space's nodes, and why a
// blob whose root is pinned reads back whatever the Space does.
module BlobInSpace {
  import opened Prelude
  import opened Codec
  import BlobIndex
  import opened BlobTree
  import opened BlobRead
  import opened SpaceStore
  import opened SpaceTheorems
  import opened NodeUpload
  import BlobClient

  lemma ServedIsPresent(s: Store)
    ensures forall h :: h in Served(s) ==> h in s.objects && h in s.tables.nodes
  {
  }

  lemma HeldRootIsServed(
    digest: Digest, nodes: NodeStore, content: bytes, contentType: bytes, chunkBytes: nat, fanout: nat)
    requires 0 < chunkBytes && 2 <= fanout && HoldsBlob(digest, nodes, content, contentType, chunkBytes, fanout)
    ensures RootHash(digest, content, contentType, chunkBytes, fanout) in nodes
  {
    hide Sound, BlobTreeOf, HashOf;
    if |content| > chunkBytes {
      RootIsTree(digest, content, contentType, chunkBytes, fanout);
    }
  }

  // A node kept by a run is served unchanged.
  lemma KeptIsServed(w: World, w': World, hash: Hash)
    requires hash in Served(w.store) && Kept(w, w', hash)
    ensures hash in Served(w'.store) && Served(w'.store)[hash] == Served(w.store)[hash]
  {
    hide NodeIn;
  }

  // The references of a served node are its edges.
  lemma ServedRefsAreEdges(digest: Digest, w: World, hash: Hash, i: nat)
    requires Inv(digest, w) && CollisionFree(digest, w.history.seen) && hash in Served(w.store)
    requires i < |Served(w.store)[hash].refs|
    ensures Linked(w.store.edges, hash, Served(w.store)[hash].refs[i])
  {
    hide Inv, ParseNode;
    PublishedMetadataIsTrue(digest, w, hash);
    var refs := Served(w.store)[hash].refs;
    EdgeIsThere(w.store.edges, hash, refs, i);
  }

  lemma EdgeIsThere(edges: set<Edge>, hash: Hash, refs: seq<Hash>, i: nat)
    requires OrderedRefs(edges, hash, refs) && i < |refs|
    ensures Linked(edges, hash, refs[i])
  {
    assert Edge(hash, i, refs[i]) in EdgesFrom(hash, refs, 0);
    assert Edge(hash, i, refs[i]) in Out(edges, hash);
  }

  // Every tree below a pinned anchor stays stored.
  lemma {:induction false} TreeOutlives(
    digest: Digest, w: World, actions: seq<Action>, cutoff: int, path: seq<Hash>, mediaType: bytes, t: Tree)
    requires Inv(digest, w) && IsRun(digest, w, actions) && CollisionFree(digest, w.history.seen)
    requires CutoffsWithin(actions, cutoff)
    requires IsPath(w.store.edges, path) && path[|path| - 1] == HashOf(digest, mediaType, t)
    requires path[0] in w.store.objects && PinnedThroughout(w, actions, cutoff, path[0])
    requires Stored(digest, mediaType, Served(w.store), t)
    ensures Stored(digest, mediaType, Served(Exec(w, actions).store), t)
    decreases t
  {
    hide Inv, Enabled, Apply, Served, HashOf, Kept, PinnedThroughout;
    var hash := HashOf(digest, mediaType, t);
    CollectionIsSafe(digest, w, actions, cutoff, path);
    assert Kept(w, Exec(w, actions), path[|path| - 1]);
    KeptIsServed(w, Exec(w, actions), hash);
    if t.Branch? {
      var refs := NodeOf(digest, mediaType, t).refs;
      forall i | 0 <= i < |t.children|
        ensures Stored(digest, mediaType, Served(Exec(w, actions).store), t.children[i])
      {
        ServedRefsAreEdges(digest, w, hash, i);
        assert refs[i] == HashOf(digest, mediaType, t.children[i]);
        PathExtends(w.store.edges, path, refs[i]);
        TreeOutlives(digest, w, actions, cutoff, path + [refs[i]], mediaType, t.children[i]);
      }
    }
  }

  lemma PathExtends(edges: set<Edge>, path: seq<Hash>, next: Hash)
    requires IsPath(edges, path) && Linked(edges, path[|path| - 1], next)
    ensures IsPath(edges, path + [next])
  {
    hide Linked;
    var longer := path + [next];
    forall i | 0 <= i < |longer| - 1
      ensures Linked(edges, longer[i], longer[i + 1])
    {
      if i < |path| - 1 {
        assert longer[i] == path[i] && longer[i + 1] == path[i + 1];
      }
    }
  }

  lemma NodeOutlives(digest: Digest, w: World, actions: seq<Action>, cutoff: int, hash: Hash)
    requires Inv(digest, w) && IsRun(digest, w, actions) && CollisionFree(digest, w.history.seen)
    requires CutoffsWithin(actions, cutoff)
    requires PinnedThroughout(w, actions, cutoff, hash) && hash in Served(w.store)
    ensures hash in Served(Exec(w, actions).store) && Served(Exec(w, actions).store)[hash] == Served(w.store)[hash]
  {
    hide Inv, Enabled, Apply, Served, Kept, PinnedThroughout;
    ServedIsPresent(w.store);
    CollectionIsSafe(digest, w, actions, cutoff, [hash]);
    assert Kept(w, Exec(w, actions), [hash][0]);
    KeptIsServed(w, Exec(w, actions), hash);
  }

  /** A blob whose root stays pinned stays held over any run of the Space, collections included. */
  lemma BlobOutlives(
    digest: Digest, w: World, actions: seq<Action>, cutoff: int, content: bytes, contentType: bytes,
    chunkBytes: nat, fanout: nat)
    requires 0 < chunkBytes && 2 <= fanout
    requires Inv(digest, w) && IsRun(digest, w, actions) && CollisionFree(digest, w.history.seen)
    requires CutoffsWithin(actions, cutoff)
    requires PinnedThroughout(w, actions, cutoff, RootHash(digest, content, contentType, chunkBytes, fanout))
    requires HoldsBlob(digest, Served(w.store), content, contentType, chunkBytes, fanout)
    ensures HoldsBlob(digest, Served(Exec(w, actions).store), content, contentType, chunkBytes, fanout)
  {
    hide Inv, Enabled, Apply, Served, HashOf, Kept, PinnedThroughout, Stored, Sound, BlobTreeOf, IsRun, Exec, Encode;
    hide CollisionFree, CutoffsWithin, Linked;
    var root := RootHash(digest, content, contentType, chunkBytes, fanout);
    HeldRootIsServed(digest, Served(w.store), content, contentType, chunkBytes, fanout);
    ServedIsPresent(w.store);
    if |content| <= chunkBytes {
      NodeOutlives(digest, w, actions, cutoff, root);
    } else {
      RootIsTree(digest, content, contentType, chunkBytes, fanout);
      TreeOutlives(digest, w, actions, cutoff, [root], contentType, BlobTreeOf(content, chunkBytes, fanout));
    }
  }

  /**
   * A blob kept in a Space reads back, whole and by every range, after any run of the Space that
   * keeps its root root-referenced or leased: the stored bytes, unless it is the index lookalike.
   */
  lemma PinnedBlobReadsBack(
    digest: Digest, w: World, actions: seq<Action>, cutoff: int, content: bytes, contentType: bytes,
    chunkBytes: nat, fanout: nat, range: Option<Range>)
    requires 0 < chunkBytes <= BlobIndex.CHUNK_BYTES && 2 <= fanout <= BlobIndex.FANOUT
    requires Inv(digest, w) && IsRun(digest, w, actions) && CollisionFree(digest, w.history.seen)
    requires CutoffsWithin(actions, cutoff)
    requires PinnedThroughout(w, actions, cutoff, RootHash(digest, content, contentType, chunkBytes, fanout))
    requires HoldsBlob(digest, Served(w.store), content, contentType, chunkBytes, fanout)
    ensures var r := ReadBlob(Served(Exec(w, actions).store),
                              RootHash(digest, content, contentType, chunkBytes, fanout), range);
            if LooksLikeIndex(content, contentType, chunkBytes) then r.Err? else r == Expected(content, range)
  {
    hide Inv, Enabled, Apply, Served, RootHash, HoldsBlob, ReadBlob, Expected, PinnedThroughout;
    BlobOutlives(digest, w, actions, cutoff, content, contentType, chunkBytes, fanout);
    BlobRoundTrip(digest, Served(Exec(w, actions).store), content, contentType, chunkBytes, fanout, range);
  }

  /** The lease a writer took on the root is enough until it runs out. */
  lemma LeasedBlobReadsBack(
    digest: Digest, w: World, actions: seq<Action>, cutoff: int, content: bytes, contentType: bytes,
    chunkBytes: nat, fanout: nat, range: Option<Range>)
    requires 0 < chunkBytes <= BlobIndex.CHUNK_BYTES && 2 <= fanout <= BlobIndex.FANOUT
    requires Inv(digest, w) && IsRun(digest, w, actions) && CollisionFree(digest, w.history.seen)
    requires CutoffsWithin(actions, cutoff)
    requires var root := RootHash(digest, content, contentType, chunkBytes, fanout);
             root in w.store.tables.nodes && w.store.tables.nodes[root].leaseExpiresAt > cutoff
    requires HoldsBlob(digest, Served(w.store), content, contentType, chunkBytes, fanout)
    ensures var r := ReadBlob(Served(Exec(w, actions).store),
                              RootHash(digest, content, contentType, chunkBytes, fanout), range);
            if LooksLikeIndex(content, contentType, chunkBytes) then r.Err? else r == Expected(content, range)
  {
    hide Inv, Enabled, Apply, Served, RootHash, HoldsBlob, ReadBlob, Expected, PinnedThroughout;
    HeldRootIsServed(digest, Served(w.store), content, contentType, chunkBytes, fanout);
    ServedIsPresent(w.store);
    LeaseStaysPinned(digest, w, actions, cutoff, RootHash(digest, content, contentType, chunkBytes, fanout));
    PinnedBlobReadsBack(digest, w, actions, cutoff, content, contentType, chunkBytes, fanout, range);
  }

  lemma HeldIsServed(s: Store, floor: int)
    ensures BlobRead.Extends(BlobClient.Held(s, floor), Served(s))
  {
    hide NodeIn;
  }

  /**
   * End to end: what StoreBlob reports stored, through however many lost requests, refusals and
   * other writers' operations, reads back from the Space after any run of it whose collections end
   * before the leases the client asked for.
   */
  lemma UploadedBlobReadsBack(
    c: BlobClient.BlobClient, content: bytes, contentType: bytes, expectedSize: Option<nat>, calm: bool,
    r: Result<BlobRef, BlobError>, actions: seq<Action>, range: Option<Range>)
    requires c.Valid() && c.StoresBlob(content, contentType, expectedSize, calm, r) && r.Ok? && c.NoCollision()
    requires IsRun(c.digest, c.writer.space.W(), actions) && CutoffsWithin(actions, c.writer.floor - 1)
    ensures var answer := ReadBlob(Served(Exec(c.writer.space.W(), actions).store), r.value.hash, range);
            if LooksLikeIndex(content, contentType, c.chunkBytes) then answer.Err? else answer == Expected(content, range)
  {
    hide Inv, Enabled, Apply, Served, RootHash, HoldsBlob, ReadBlob, Expected, PinnedThroughout, IsRun, Exec, BlobClient.Held;
    var w, floor := c.writer.space.W(), c.writer.floor;
    HeldIsServed(w.store, floor);
    BlobStays(c.digest, BlobClient.Held(w.store, floor), Served(w.store), content, contentType, c.chunkBytes, c.indexFanout);
    LeasedBlobReadsBack(c.digest, w, actions, floor - 1, content, contentType, c.chunkBytes, c.indexFanout, range);
  }
}
