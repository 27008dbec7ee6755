// The blob client: cutting a stream into chunks, growing the tree while chunks
// arrive, and reading a range with a running child offset. Every node is written into
// one Space by lease evaluations, which others use and collect between any two requests.
module BlobClient {
  import opened Prelude
  import opened Codec
  import opened BlobIndex
  import opened BlobTree
  import opened BlobRead
  import opened SpaceStore
  import opened SpaceTheorems
  import opened NodeUpload

  // ----- chunks of a stream -----

  class ChunkSource {
    const chunkBytes: nat
    var reader: seq<bytes>
    // the part of the reader's current piece not yet copied
    var piece: bytes
    var chunk: array<byte>
    var used: nat

    // Everything the source has not yielded yet.
    ghost function Pending(): bytes
      requires used <= chunk.Length
      reads this, chunk
    {
      chunk[..used] + piece + Flatten(reader)
    }

    ghost predicate Valid()
      reads this, chunk
    {
      0 < chunkBytes == chunk.Length && used < chunkBytes
    }

    constructor (stream: seq<bytes>, chunkBytes: nat)
      requires chunkBytes > 0
      ensures Valid() && Pending() == Flatten(stream) && this.chunkBytes == chunkBytes && fresh(chunk)
    {
      this.chunkBytes, reader, piece, used := chunkBytes, stream, [], 0;
      chunk := new byte[chunkBytes](i => 0);
    }

    // Copies as much of the current piece as fits.
    method Fill()
      requires Valid() && piece != []
      modifies this, chunk
      ensures chunk == old(chunk) && reader == old(reader) && old(used) < used <= chunkBytes == chunk.Length
      ensures |piece| < |old(piece)| && Pending() == old(Pending())
    {
      var take := Min(chunkBytes - used, |piece|);
      ghost var before := chunk[..used];
      Place(chunk, used, piece[..take]);
      assert chunk[..used + take] == before + piece[..take];
      used := used + take;
      assert piece == piece[..take] + piece[take..];
      piece := piece[take..];
    }

    /** Yields the next full chunk, or at the end what is left, however the stream is cut. */
    method Next() returns (next: Option<bytes>)
      requires Valid()
      modifies this, chunk
      ensures Valid() && (chunk == old(chunk) || fresh(chunk))
      ensures next.None? <==> old(Pending()) == []
      ensures next.None? ==> Pending() == []
      ensures next.Some? ==>
                && next.value == old(Pending())[..Min(|old(Pending())|, chunkBytes)]
                && Pending() == old(Pending())[|next.value|..]
    {
      ghost var all := Pending();
      while piece != [] || reader != []
        invariant Valid() && Pending() == all && chunk == old(chunk)
        decreases |reader|, |piece|
      {
        if piece == [] {
          piece, reader := reader[0], reader[1..];
        } else {
          Fill();
          if used == chunkBytes {
            next := Some(chunk[..]);
            assert all == next.value + (piece + Flatten(reader));
            chunk := new byte[chunkBytes](i => 0);
            used := 0;
            return;
          }
        }
      }
      next := if used > 0 then Some(chunk[..used]) else None;
      used := 0;
    }
  }

  // Taking a first chunk off takes the first of the content's chunks off.
  lemma ChunksSplit(content: bytes, chunkBytes: nat)
    requires chunkBytes > 0 && content != []
    ensures var n := Min(|content|, chunkBytes);
            Chunks(content, chunkBytes) == [content[..n]] + Chunks(content[n..], chunkBytes)
  {
    if |content| <= chunkBytes {
      assert content[..|content|] == content && content[|content|..] == [];
    }
  }

  // ----- groups -----

  function RefOf(digest: Digest, mediaType: bytes, t: Tree): TreeNode {
    TreeNode(HashOf(digest, mediaType, t), |Bytes(t)|, Level(t))
  }

  function Refs(digest: Digest, mediaType: bytes, ts: seq<Tree>): (r: seq<TreeNode>)
    ensures |r| == |ts|
  {
    seq(|ts|, i requires 0 <= i < |ts| => RefOf(digest, mediaType, ts[i]))
  }

  ghost predicate AllLeased(digest: Digest, mediaType: bytes, leased: set<Hash>, ts: seq<Tree>) {
    forall i :: 0 <= i < |ts| ==> HashOf(digest, mediaType, ts[i]) in leased
  }

  function Count<T>(groups: seq<seq<T>>): nat {
    if groups == [] then 0 else |groups[0]| + Count(groups[1..])
  }

  // The lowest populated group.
  function Lowest<T>(groups: seq<seq<T>>): (k: nat)
    ensures k <= |groups| && (k < |groups| ==> groups[k] != []) && forall i :: 0 <= i < k ==> groups[i] == []
  {
    if groups == [] || groups[0] != [] then 0 else 1 + Lowest(groups[1..])
  }

  lemma {:induction false} CountBehindEmpty<T>(groups: seq<seq<T>>, k: nat)
    requires k <= |groups| && forall i :: 0 <= i < k ==> groups[i] == []
    ensures Count(groups) == Count(groups[k..])
  {
    if k > 0 {
      CountBehindEmpty(groups[1..], k - 1);
      assert groups[1..][k - 1..] == groups[k..];
    } else {
      assert groups[0..] == groups;
    }
  }

  lemma {:induction false} SameCount<T, U>(a: seq<seq<T>>, b: seq<seq<U>>)
    requires |a| == |b| && forall i :: 0 <= i < |a| ==> |a[i]| == |b[i]|
    ensures Count(a) == Count(b)
  {
    if a != [] {
      SameCount(a[1..], b[1..]);
    }
  }

  /** The counter over a nonempty level is never all empty; it holds one node exactly when the level does. */
  lemma {:induction false} CountOfGroups(ts: seq<Tree>, fanout: nat)
    requires fanout >= 2 && ts != []
    ensures Count(Groups(ts, fanout)) >= 1
    ensures Tail(ts, fanout) != [] ==> (Count(Groups(ts, fanout)) == 1 <==> |ts| == 1)
    decreases |ts|
  {
    var groups := Groups(ts, fanout);
    assert groups[1..] == Groups(Full(ts, fanout), fanout);
    if |ts| >= fanout {
      CountOfGroups(Full(ts, fanout), fanout);
    } else {
      assert Groups(Full(ts, fanout), fanout) == [];
    }
  }

  /** Empty low groups are complete levels: the tree over a level is the tree over the next one up. */
  lemma {:induction false} Descend(ts: seq<Tree>, fanout: nat) returns (up: seq<Tree>)
    requires fanout >= 2 && ts != []
    ensures var groups := Groups(ts, fanout);
            var k := Lowest(groups);
            && k < |groups| && up != [] && groups[k..] == Groups(up, fanout) && Tail(up, fanout) != []
            && Build(up, fanout) == Build(ts, fanout) && BytesAll(up) == BytesAll(ts) && k + |up| <= |ts|
    decreases |ts|
  {
    var groups := Groups(ts, fanout);
    if Tail(ts, fanout) != [] {
      up := ts;
      assert groups[0..] == groups;
    } else {
      assert LevelUp(ts, fanout) == Full(ts, fanout) + [] == Full(ts, fanout);
      GroupCount(ts, fanout);
      LevelUpKeepsBytes(ts, fanout);
      up := Descend(Full(ts, fanout), fanout);
      assert groups[1..] == Groups(Full(ts, fanout), fanout);
      var k := Lowest(groups[1..]);
      assert groups[1..][k..] == groups[k + 1..];
    }
  }

  // What the Space serves of what is leased to a time.
  ghost function Held(s: Store, floor: int): NodeStore {
    map h | h in Served(s) && h in Leased(s, floor) :: Served(s)[h]
  }

  lemma KeepsExtends(w: World, w': World, floor: int)
    requires Keeps(w, w', floor)
    ensures Extends(Held(w.store, floor), Held(w'.store, floor)) && Leased(w.store, floor) <= Leased(w'.store, floor)
  {
    hide NodeIn;
    forall h | h in Held(w.store, floor)
      ensures h in Held(w'.store, floor) && Held(w'.store, floor)[h] == Held(w.store, floor)[h]
    {
      assert StaysLeased(w.store, w'.store, floor, h);
    }
    LeasedStays(w, w', floor);
  }

  // What a Space holds ready under the digest of a node is that node, unless digests collide.
  lemma HeldIsSame(digest: Digest, w: World, floor: int, seen: set<bytes>, node: Node)
    requires Inv(digest, w) && w.history.seen <= seen && Encode(node) in seen && RawHashes(node.refs)
    requires digest(Encode(node)) in Leased(w.store, floor) && CollisionFree(digest, seen)
    ensures var hash := digest(Encode(node));
            hash in Held(w.store, floor) && Held(w.store, floor)[hash] == node && LegalNode(node, DEFAULT_LIMITS)
  {
    hide Inv, ParseNode, Encode, LegalNode;
    var hash := digest(Encode(node));
    PublishedMetadataIsTrue(digest, w, hash);
    SeenObject(digest, w, hash);
    assert w.store.objects[hash] == Encode(node);
    ParsesToNode(w.store.objects[hash]);
    ServedIsLegal(digest, w, hash);
    LegalBytesDetermineTheNode(node, Served(w.store)[hash]);
  }

  lemma SeenObject(digest: Digest, w: World, hash: Hash)
    requires Inv(digest, w) && hash in w.store.objects
    ensures w.store.objects[hash] in w.history.seen && digest(w.store.objects[hash]) == hash
  {
    hide ParseNode, GraphInv, RowsDescribed, UploadsWitnessed, MissingOnlyExpired;
  }

  lemma ParsesToNode(content: bytes)
    requires ParseNode(content, DEFAULT_LIMITS).Ok?
    ensures NodeIn(content).Some?
  {
    hide ParseNode;
    ParseThenEncode(content, DEFAULT_LIMITS);
  }

  // ----- the writer's state -----

  // A group of stored trees, as the writer knows them.
  ghost predicate GroupOf(w: Writer, group: seq<TreeNode>, trees: seq<Tree>, level: int) {
    && group == Refs(w.digest, w.mediaType, trees)
    && AllSound(w.mediaType, w.fanout, trees, level)
    && AllLeased(w.digest, w.mediaType, w.leased, trees)
    && (CollisionFree(w.digest, w.seen) ==> AllStored(w.digest, w.mediaType, w.nodes, trees))
  }

  // The group at index i holds nodes of level i - 1, all of them stored.
  ghost predicate GroupsOf(w: Writer, groups: seq<seq<TreeNode>>, forest: seq<seq<Tree>>) {
    && |forest| == |groups|
    && forall i :: 0 <= i < |groups| ==> GroupOf(w, groups[i], forest[i], i - 1)
  }

  // What a group's meaning depends on.
  datatype Writer = Writer(
    digest: Digest, mediaType: bytes, fanout: nat, nodes: NodeStore, leased: set<Hash>, seen: set<bytes>)

  ghost predicate Grows(w: Writer, w': Writer) {
    && w' == w.(nodes := w'.nodes, leased := w'.leased, seen := w'.seen)
    && Extends(w.nodes, w'.nodes) && w.leased <= w'.leased && w.seen <= w'.seen
  }

  lemma GroupStays(w: Writer, w': Writer, group: seq<TreeNode>, trees: seq<Tree>, level: int)
    requires GroupOf(w, group, trees, level) && Grows(w, w')
    ensures GroupOf(w', group, trees, level)
  {
    if CollisionFree(w'.digest, w'.seen) {
      forall i | 0 <= i < |trees|
        ensures Stored(w.digest, w.mediaType, w'.nodes, trees[i])
      {
        StoredStays(w.digest, w.mediaType, w.nodes, w'.nodes, trees[i]);
      }
    }
  }

  lemma GroupsStay(w: Writer, w': Writer, groups: seq<seq<TreeNode>>, forest: seq<seq<Tree>>)
    requires GroupsOf(w, groups, forest) && Grows(w, w')
    ensures GroupsOf(w', groups, forest)
  {
    hide GroupOf;
    forall i | 0 <= i < |groups|
      ensures GroupOf(w', groups[i], forest[i], i - 1)
    {
      GroupStays(w, w', groups[i], forest[i], i - 1);
    }
  }

  lemma GroupPush(w: Writer, group: seq<TreeNode>, trees: seq<Tree>, level: int, node: TreeNode, t: Tree)
    requires GroupOf(w, group, trees, level) && GroupOf(w, [node], [t], level)
    ensures GroupOf(w, group + [node], trees + [t], level) && |group| == |trees|
  {
    hide Sound, Stored, HashOf, Bytes;
    assert Refs(w.digest, w.mediaType, trees + [t]) == Refs(w.digest, w.mediaType, trees) + Refs(w.digest, w.mediaType, [t]);
    assert [t][0] == t;
  }

  lemma NodeLevel(w: Writer, node: TreeNode, t: Tree, level: int)
    requires GroupOf(w, [node], [t], level)
    ensures node == RefOf(w.digest, w.mediaType, t) && node.level == level == Level(t) && level >= -1
  {
    assert [t][0] == t && Refs(w.digest, w.mediaType, [t])[0] == node;
    SoundLevel(w.mediaType, w.fanout, t, level);
  }

  lemma GroupEmpty(w: Writer, level: int)
    ensures GroupOf(w, [], [], level)
  {
  }

  class BlobClient {
    const digest: Digest
    const chunkBytes: nat
    const indexFanout: nat
    const writer: NodeWriter

    // every byte string hashed for the Space or by this client
    ghost var seen: set<bytes>

    // the open groups of the blob being stored, and the trees their nodes stand for
    var groups: seq<seq<TreeNode>>
    ghost var forest: seq<seq<Tree>>

    ghost predicate Valid()
      reads this`seen, writer, writer.space
    {
      && 0 < chunkBytes <= CHUNK_BYTES && 2 <= indexFanout <= FANOUT
      && (forall b :: |digest(b)| == HASH_SIZE)
      && writer.Valid() && digest == writer.space.digest && writer.space.history.seen <= seen
    }

    ghost predicate NoCollision()
      reads this`seen
    {
      CollisionFree(digest, seen)
    }

    // Nobody else uses the Space, no call is lost, and no upload is under way.
    ghost predicate Calm()
      reads writer.space
    {
      writer.Quiet() && Idle(writer.space.S())
    }

    // The nodes the Space serves under leases that last.
    ghost function Nodes(): NodeStore
      reads writer.space
    {
      Held(writer.space.S(), writer.floor)
    }

    ghost function W(mediaType: bytes): Writer
      reads this`seen, writer.space
    {
      Writer(digest, mediaType, indexFanout, Nodes(), Leased(writer.space.S(), writer.floor), seen)
    }

    constructor (writer: NodeWriter, chunkBytes: nat, indexFanout: nat)
      requires 0 < chunkBytes <= CHUNK_BYTES && 2 <= indexFanout <= FANOUT
      requires writer.Valid() && forall b :: |writer.space.digest(b)| == HASH_SIZE
      ensures Valid() && this.writer == writer && this.chunkBytes == chunkBytes && this.indexFanout == indexFanout
    {
      this.digest, this.chunkBytes, this.indexFanout, this.writer := writer.space.digest, chunkBytes, indexFanout, writer;
      this.seen, this.groups, this.forest := writer.space.history.seen, [], [];
    }

    /**
     * Stores one node under its digest. Nodes leased before stay, and so does what they serve; a
     * success means that the node is leased too and, unless digests collide, is the one served.
     */
    method StoreNode(node: Node) returns (r: Result<Hash, BlobError>)
      requires Valid() && RawHashes(node.refs)
      modifies this`seen, writer, writer.space
      ensures Valid() && forall mediaType :: Grows(old(W(mediaType)), W(mediaType))
      ensures r.Ok? ==> r.value == digest(Encode(node)) && r.value in Leased(writer.space.S(), writer.floor)
      ensures r.Ok? && NoCollision() ==>
                r.value in Nodes() && Nodes()[r.value] == node && LegalNode(node, DEFAULT_LIMITS)
      ensures old(Storing(node)) ==> r.Ok? && Calm()
    {
      hide LegalNode, Encode, Leased, Keeps, Idle, Held, CollisionFree;
      ghost var before := writer.space.W();
      var result := writer.UploadCanonicalNode(node);
      seen := seen + writer.space.history.seen + {Encode(node)};
      KeepsExtends(before, writer.space.W(), writer.floor);
      if result.Err? {
        return Err(StorageFailed);
      }
      var hash := digest(Encode(node));
      if NoCollision() {
        HeldIsSame(digest, writer.space.W(), writer.floor, seen, node);
      }
      r := Ok(hash);
    }

    // Undisturbed, a legal node over leased ones.
    ghost predicate Storing(node: Node)
      reads writer.space
    {
      && Calm() && LegalNode(node, DEFAULT_LIMITS)
      && forall c :: c in node.refs ==> c in Leased(writer.space.S(), writer.floor)
    }

    // Writes the index over one group.
    method StoreIndex(children: seq<TreeNode>, mediaType: bytes, ghost trees: seq<Tree>, ghost level: int)
      returns (r: Result<TreeNode, BlobError>)
      requires Valid() && 1 <= |children| <= indexFanout && GroupOf(W(mediaType), children, trees, level)
      modifies this`seen, writer, writer.space
      ensures Valid() && Grows(old(W(mediaType)), W(mediaType))
      ensures r.Ok? ==> GroupOf(W(mediaType), [r.value], [Branch(trees)], level + 1)
      ensures old(Calm()) && LegalMediaType(mediaType) && |BytesAll(trees)| <= MAX_SAFE_INTEGER && level + 1 <= MAX_SAFE_INTEGER
              ==> r.Ok? && Calm()
    {
      hide NodeWriter.Valid, NodeWriter.Quiet, Idle, Held, Leased;
      hide GroupOf, Wire, ValidIndex;
      ghost var before := W(mediaType);
      IndexMatchesTree(before, children, trees, level);
      var childLevel := children[0].level;
      if exists c :: c in children && c.level != childLevel {
        return Err(LevelMismatch);
      }
      var index := Index(1, childLevel + 1, Total(SizesOf(children)), mediaType, SizesOf(children));
      if !ValidIndex(index) {
        return Err(IndexInvalid);
      }
      var node := Node(INDEX_TYPE, HashesOf(children), Wire(index));
      IndexNodeIsLegal(before, children, trees, level);
      var stored := StoreNode(node);
      if stored.Err? {
        return Err(stored.error);
      }
      r := Ok(TreeNode(stored.value, index.size, index.level));
      BranchIsStored(before, W(mediaType), children, trees, level, r.value);
    }

    // Writes the index over a group and appends it one level up.
    method AppendGroup(
      children: seq<TreeNode>, mediaType: bytes, ghost trees: seq<Tree>, ghost level: int, ghost ts: seq<Tree>)
      returns (error: Option<BlobError>)
      requires Valid() && GroupsOf(W(mediaType), groups, forest)
      requires 1 <= |children| <= indexFanout && GroupOf(W(mediaType), children, trees, level)
      requires 0 <= level + 2 <= |groups| && forest[level + 2..] == Groups(ts, indexFanout)
      modifies this, writer, writer.space
      ensures Valid() && Grows(old(W(mediaType)), W(mediaType))
      ensures error.None? ==>
                && GroupsOf(W(mediaType), groups, forest) && level + 2 <= |groups|
                && forest[..level + 2] == old(forest[..level + 2])
                && forest[level + 2..] == Groups(ts + [Branch(trees)], indexFanout)
      ensures old(Calm()) && Fits(mediaType, level + 1, ts + [Branch(trees)]) ==> error.None? && Calm()
      decreases |ts|, 1
    {
      hide NodeWriter.Valid, NodeWriter.Quiet, Idle, Held, Leased;
      hide GroupOf, Grows;
      LastFits(mediaType, level + 1, ts, trees);
      ghost var before := W(mediaType);
      var stored := StoreIndex(children, mediaType, trees, level);
      if stored.Err? {
        return Some(stored.error);
      }
      ghost var carried := W(mediaType);
      GroupsStay(before, carried, groups, forest);
      NodeLevel(carried, stored.value, Branch(trees), level + 1);
      error := AppendTreeNode(stored.value, mediaType, Branch(trees), ts);
      GrowsTransitive(before, carried, W(mediaType));
    }

    /** One more node at its level: the counter over `ts` becomes the counter over `ts + [t]`. */
    method AppendTreeNode(node: TreeNode, mediaType: bytes, ghost t: Tree, ghost ts: seq<Tree>)
      returns (error: Option<BlobError>)
      requires Valid() && GroupsOf(W(mediaType), groups, forest) && GroupOf(W(mediaType), [node], [t], node.level)
      requires 0 <= node.level + 1 <= |groups| && forest[node.level + 1..] == Groups(ts, indexFanout)
      modifies this, writer, writer.space
      ensures Valid() && Grows(old(W(mediaType)), W(mediaType))
      ensures error.None? ==>
                && GroupsOf(W(mediaType), groups, forest) && node.level + 1 <= |groups|
                && forest[..node.level + 1] == old(forest[..node.level + 1])
                && forest[node.level + 1..] == Groups(ts + [t], indexFanout)
      ensures old(Calm()) && Fits(mediaType, node.level, ts + [t]) ==> error.None? && Calm()
      decreases |ts|, 0
    {
      hide NodeWriter.Valid, NodeWriter.Quiet, Idle, Held, Leased;
      hide GroupOf, Grows, Fits, Groups, Full, Tail;
      var index := node.level + 1;
      GrowsReflexive(W(mediaType));
      if index == |groups| {
        groups, forest := groups + [[]], forest + [[]];
        GroupEmpty(W(mediaType), node.level);
        NoGroups(ts, indexFanout);
      }
      ghost var group := forest[index];
      SplitGroups(ts, indexFanout, forest[index..]);
      Carry(ts, t, indexFanout);
      GroupPush(W(mediaType), groups[index], group, node.level, node, t);
      var pushed := groups[index] + [node];
      if |pushed| == indexFanout {
        groups, forest := groups[index := []], forest[index := []];
        GroupEmpty(W(mediaType), node.level);
        FullGroupFits(mediaType, node.level, ts, t, indexFanout);
        error := AppendGroup(pushed, mediaType, group + [t], node.level, Full(ts, indexFanout));
        if error.None? {
          JoinGroups(ts + [t], indexFanout, forest, index);
        }
      } else {
        groups, forest := groups[index := pushed], forest[index := group + [t]];
        error := None;
        JoinGroups(ts + [t], indexFanout, forest, index);
      }
    }

    // Closes the lowest populated group.
    method CollapseGroup(lowest: nat, mediaType: bytes, ghost up: seq<Tree>) returns (error: Option<BlobError>)
      requires Valid() && GroupsOf(W(mediaType), groups, forest) && Located(forest, lowest, up, indexFanout)
      requires groups[lowest] != [] && |groups[lowest]| < indexFanout
      modifies this, writer, writer.space
      ensures Valid() && Grows(old(W(mediaType)), W(mediaType))
      ensures error.None? ==>
                && GroupsOf(W(mediaType), groups, forest) && lowest + 1 <= |groups|
                && forest[lowest + 1..] == Groups(LevelUp(up, indexFanout), indexFanout)
                && forall i :: 0 <= i < lowest + 1 ==> forest[i] == []
      ensures old(Calm()) && Fits(mediaType, lowest, LevelUp(up, indexFanout)) ==> error.None? && Calm()
    {
      hide NodeWriter.Valid, NodeWriter.Quiet, Idle, Held, Leased;
      hide GroupOf, Grows, Fits, Groups, Full, Tail, BytesAll;
      var group := groups[lowest];
      groups, forest := groups[lowest := []], forest[lowest := []];
      GroupEmpty(W(mediaType), lowest as int - 1);
      ghost var cleared := forest;
      error := AppendGroup(group, mediaType, Tail(up, indexFanout), lowest as int - 1, Full(up, indexFanout));
      if error.None? {
        StillEmpty(cleared, forest, lowest);
      }
    }

    /** Collapses what is left of the counter, lowest group first, into the tree over all of `ts`. */
    method FinishTree(mediaType: bytes, ghost ts: seq<Tree>) returns (r: Result<TreeNode, BlobError>)
      requires Valid() && GroupsOf(W(mediaType), groups, forest) && ts != [] && forest == Groups(ts, indexFanout)
      modifies this, writer, writer.space
      ensures Valid() && Grows(old(W(mediaType)), W(mediaType))
      ensures r.Ok? ==> GroupOf(W(mediaType), [r.value], [Build(ts, indexFanout)], Level(Build(ts, indexFanout)))
      ensures old(Calm()) && Fits(mediaType, -1, ts) ==> r.Ok? && Calm()
    {
      hide NodeWriter.Valid, NodeWriter.Quiet, Idle, Held, Leased;
      hide GroupOf, Grows, Fits, Groups, Full, Tail, Build, BytesAll, Level;
      ghost var m, k := ts, 0;
      assert forest[0..] == forest;
      GrowsReflexive(W(mediaType));
      while true
        invariant Valid() && Grows(old(W(mediaType)), W(mediaType)) && GroupsOf(W(mediaType), groups, forest)
        invariant 0 <= k <= |groups| && m != [] && forest[k..] == Groups(m, indexFanout)
        invariant forall i :: 0 <= i < k ==> forest[i] == []
        invariant old(Calm()) && Fits(mediaType, -1, ts) ==> Calm()
        invariant Build(m, indexFanout) == Build(ts, indexFanout) && BytesAll(m) == BytesAll(ts) && k + |m| <= |ts|
        decreases |m|
      {
        var count := Count(groups);
        var lowest: int := Lowest(groups);
        ghost var up := Locate(W(mediaType), groups, forest, k, m);
        if count == 1 {
          SingleNode(W(mediaType), groups[lowest], up, lowest - 1);
          return Ok(groups[lowest][0]);
        }
        ghost var before := W(mediaType);
        CollapseFits(mediaType, ts, up, lowest, indexFanout);
        var error := CollapseGroup(lowest, mediaType, up);
        GrowsTransitive(old(W(mediaType)), before, W(mediaType));
        if error.Some? {
          return Err(error.value);
        }
        m, k := LevelUp(up, indexFanout), lowest + 1;
      }
    }

    // Stores one chunk and appends its leaf.
    method AddChunk(chunk: bytes, mediaType: bytes, ghost ts: seq<Tree>) returns (error: Option<BlobError>)
      requires Valid() && 1 <= |chunk| <= CHUNK_BYTES
      requires GroupsOf(W(mediaType), groups, forest) && forest == Groups(ts, indexFanout)
      modifies this, writer, writer.space
      ensures Valid() && Grows(old(W(mediaType)), W(mediaType))
      ensures error.None? ==> GroupsOf(W(mediaType), groups, forest) && forest == Groups(ts + [Leaf(chunk)], indexFanout)
      ensures old(Calm()) && Fits(mediaType, -1, ts + [Leaf(chunk)]) ==> error.None? && Calm()
    {
      hide NodeWriter.Valid, NodeWriter.Quiet, Idle, Held, Leased;
      hide GroupOf, Groups, LegalNode, Fits;
      ghost var before := W(mediaType);
      LeafIsLegal(chunk);
      var stored := StoreNode(Node(CHUNK_TYPE, [], chunk));
      if stored.Err? {
        return Some(stored.error);
      }
      ghost var after := W(mediaType);
      GroupsStay(before, after, groups, forest);
      LeafIsStored(after, chunk);
      assert forest[0..] == forest;
      error := AppendTreeNode(TreeNode(stored.value, |chunk|, -1), mediaType, Leaf(chunk), ts);
      assert error.None? ==> forest[0..] == forest;
    }

    // A blob of at most one chunk.
    method StorePlain(content: bytes, contentType: bytes, expectedSize: Option<nat>)
      returns (r: Result<BlobRef, BlobError>)
      requires Valid() && |content| <= chunkBytes
      modifies this, writer, writer.space
      ensures Valid() && Extends(old(Nodes()), Nodes()) && StoresBlob(content, contentType, expectedSize, old(Calm()), r)
      ensures old(Calm()) && Storable(content, contentType) ==> Calm()
    {
      hide NodeWriter.Valid, NodeWriter.Quiet, Idle, Held, Leased;
      hide LegalNode, Encode;
      var node := Node(contentType, [], content);
      PlainIsLegal(content, contentType);
      ghost var before := W(contentType);
      var stored := StoreNode(node);
      assert Grows(before, W(contentType));
      if stored.Err? {
        return Err(stored.error);
      }
      if expectedSize.Some? && expectedSize.value != |content| {
        return Err(BlobSizeMismatch);
      }
      r := Ok(BlobRef(stored.value, |content|, contentType));
    }

    // The next chunk, if there is one.
    method AddNext(source: ChunkSource, mediaType: bytes, ghost done: seq<bytes>, ghost content: bytes)
      returns (r: Result<Option<bytes>, BlobError>)
      requires Valid() && source.Valid() && source.chunkBytes == chunkBytes
      requires Chunks(content, chunkBytes) == done + Chunks(source.Pending(), chunkBytes)
      requires GroupsOf(W(mediaType), groups, forest) && forest == Groups(Leaves(done), indexFanout)
      modifies this, writer, writer.space, source, source.chunk
      ensures Valid() && Grows(old(W(mediaType)), W(mediaType)) && source.Valid()
      ensures source.chunk == old(source.chunk) || fresh(source.chunk)
      ensures r == Ok(None) ==>
                && done == Chunks(content, chunkBytes) && Flatten(done) == content
                && GroupsOf(W(mediaType), groups, forest) && forest == Groups(Leaves(done), indexFanout)
      ensures r.Ok? && r.value.Some? ==>
                && Chunks(content, chunkBytes) == done + [r.value.value] + Chunks(source.Pending(), chunkBytes)
                && |Flatten(done + [r.value.value])| == |Flatten(done)| + |r.value.value|
                && GroupsOf(W(mediaType), groups, forest)
                && forest == Groups(Leaves(done + [r.value.value]), indexFanout)
                && |source.Pending()| < |old(source.Pending())|
      ensures old(Calm()) && Storable(content, mediaType) ==> r.Ok? && Calm()
    {
      hide NodeWriter.Valid, NodeWriter.Quiet, Idle, Held, Leased;
      hide GroupOf, Groups, Grows, Fits, Chunks, Storable;
      ghost var pending := source.Pending();
      GrowsReflexive(W(mediaType));
      var next := source.Next();
      if next.None? {
        LastChunk(content, done, chunkBytes);
        return Ok(None);
      }
      ChunksSplit(pending, chunkBytes);
      ChunkFits(content, mediaType, done, next.value, chunkBytes, Chunks(source.Pending(), chunkBytes));
      var error := AddChunk(next.value, mediaType, Leaves(done));
      r := if error.Some? then Err(error.value) else Ok(next);
    }

    // The chunks that are left, one at a time.
    method AddChunks(source: ChunkSource, mediaType: bytes, ghost done: seq<bytes>, ghost content: bytes)
      returns (r: Result<nat, BlobError>)
      requires Valid() && source.Valid() && source.chunkBytes == chunkBytes
      requires Chunks(content, chunkBytes) == done + Chunks(source.Pending(), chunkBytes)
      requires GroupsOf(W(mediaType), groups, forest) && forest == Groups(Leaves(done), indexFanout)
      modifies this, writer, writer.space, source, source.chunk
      ensures Valid() && Grows(old(W(mediaType)), W(mediaType))
      ensures r.Ok? ==>
                && r.value == |content| - |Flatten(done)|
                && GroupsOf(W(mediaType), groups, forest)
                && forest == Groups(Leaves(Chunks(content, chunkBytes)), indexFanout)
      ensures old(Calm()) && Storable(content, mediaType) ==> r.Ok? && Calm()
    {
      hide NodeWriter.Valid, NodeWriter.Quiet, Idle, Held, Leased, Calm;
      hide GroupOf, Groups, Grows, Fits, Chunks, Storable;
      ghost var soFar := done;
      var measured: nat := 0;
      GrowsReflexive(W(mediaType));
      while true
        invariant Valid() && source.Valid() && source.chunkBytes == chunkBytes
        invariant source.chunk == old(source.chunk) || fresh(source.chunk)
        invariant Chunks(content, chunkBytes) == soFar + Chunks(source.Pending(), chunkBytes)
        invariant measured == |Flatten(soFar)| - |Flatten(done)|
        invariant Grows(old(W(mediaType)), W(mediaType))
        invariant GroupsOf(W(mediaType), groups, forest) && forest == Groups(Leaves(soFar), indexFanout)
        invariant old(Calm()) && Storable(content, mediaType) ==> Calm()
        decreases |source.Pending()|
      {
        ghost var before := W(mediaType);
        var added := AddNext(source, mediaType, soFar, content);
        GrowsTransitive(old(W(mediaType)), before, W(mediaType));
        if added.Err? {
          return Err(added.error);
        }
        if added.value.None? {
          return Ok(measured);
        }
        measured := measured + |added.value.value|;
        soFar := soFar + [added.value.value];
      }
    }

    // The first two chunks, then the others.
    method AddAll(first: bytes, second: bytes, source: ChunkSource, contentType: bytes, ghost content: bytes)
      returns (r: Result<nat, BlobError>)
      requires Valid() && source.Valid() && source.chunkBytes == chunkBytes
      requires Chunks(content, chunkBytes) == [first, second] + Chunks(source.Pending(), chunkBytes)
      modifies this, writer, writer.space, source, source.chunk
      ensures Valid() && Grows(old(W(contentType)), W(contentType))
      ensures r.Ok? ==>
                && r.value == |content|
                && GroupsOf(W(contentType), groups, forest)
                && forest == Groups(Leaves(Chunks(content, chunkBytes)), indexFanout)
      ensures old(Calm()) && Storable(content, contentType) ==> r.Ok? && Calm()
    {
      hide NodeWriter.Valid, NodeWriter.Quiet, Idle, Held, Leased;
      hide GroupOf, Groups, Chunks, Storable, Fits, Grows;
      groups, forest := [], [];
      NothingGrouped(indexFanout);
      ghost var rest := Chunks(source.Pending(), chunkBytes);
      ghost var start := W(contentType);
      FirstChunksFit(content, contentType, first, second, chunkBytes, rest);
      var error := AddChunk(first, contentType, []);
      if error.Some? {
        return Err(error.value);
      }
      ghost var one := W(contentType);
      error := AddChunk(second, contentType, [Leaf(first)]);
      GrowsTransitive(start, one, W(contentType));
      if error.Some? {
        return Err(error.value);
      }
      ghost var two := W(contentType);
      r := AddChunks(source, contentType, [first, second], content);
      GrowsTransitive(start, two, W(contentType));
      if r.Ok? {
        r := Ok(|first| + |second| + r.value);
      }
    }

    // A blob of two chunks or more.
    method StoreTree(
      first: bytes, second: bytes, source: ChunkSource, contentType: bytes, expectedSize: Option<nat>,
      ghost content: bytes)
      returns (r: Result<BlobRef, BlobError>)
      requires Valid() && source.Valid() && source.chunkBytes == chunkBytes
      requires Chunks(content, chunkBytes) == [first, second] + Chunks(source.Pending(), chunkBytes)
      modifies this, writer, writer.space, source, source.chunk
      ensures Valid() && Extends(old(Nodes()), Nodes()) && StoresBlob(content, contentType, expectedSize, old(Calm()), r)
      ensures old(Calm()) && Storable(content, contentType) ==> Calm()
    {
      hide NodeWriter.Valid, NodeWriter.Quiet, Idle, Held, Leased;
      hide GroupOf, Groups, Chunks, Storable, Fits, RootHash, HoldsBlob, CollisionFree;
      var measuredSize := AddAll(first, second, source, contentType, content);
      if measuredSize.Err? {
        return Err(measuredSize.error);
      }
      AllChunksFit(content, contentType, chunkBytes);
      var root := FinishTree(contentType, Leaves(Chunks(content, chunkBytes)));
      if root.Err? {
        return Err(root.error);
      }
      RootIsHeld(W(contentType), content, chunkBytes, root.value);
      if expectedSize.Some? && expectedSize.value != measuredSize.value {
        return Err(BlobSizeMismatch);
      }
      r := Ok(BlobRef(root.value.hash, measuredSize.value, contentType));
    }

    /**
     * Storing a blob from any stream: the root depends on the stream's bytes alone, and without
     * failing calls it succeeds exactly for storable content of the announced size.
     */
    method StoreBlob(stream: seq<bytes>, contentType: bytes, expectedSize: Option<nat>)
      returns (r: Result<BlobRef, BlobError>)
      requires Valid()
      modifies this, writer, writer.space
      ensures Valid() && Extends(old(Nodes()), Nodes()) && StoresBlob(Flatten(stream), contentType, expectedSize, old(Calm()), r)
      ensures old(Calm()) && Storable(Flatten(stream), contentType) ==> Calm()
    {
      hide NodeWriter.Valid, NodeWriter.Quiet, Idle, Held, Leased, StoresBlob, Chunks, Storable;
      var source, first, second := FirstTwo(stream, chunkBytes);
      if first.None? {
        r := StorePlain([], contentType, expectedSize);
      } else if second.None? {
        r := StorePlain(first.value, contentType, expectedSize);
      } else {
        r := StoreTree(first.value, second.value, source, contentType, expectedSize, Flatten(stream));
      }
    }

    // What storing `content` must achieve.
    ghost predicate StoresBlob(
      content: bytes, contentType: bytes, expectedSize: Option<nat>, calm: bool, r: Result<BlobRef, BlobError>)
      requires Valid()
      reads this`seen, writer, writer.space
    {
      && (r.Ok? ==>
            && r.value == BlobRef(RootHash(digest, content, contentType, chunkBytes, indexFanout), |content|, contentType)
            && expectedSize.GetOr(|content|) == |content|
            && r.value.hash in Leased(writer.space.S(), writer.floor)
            && (NoCollision() ==> HoldsBlob(digest, Nodes(), content, contentType, chunkBytes, indexFanout)))
      && (calm && NoCollision() ==>
            (r.Ok? <==> Storable(content, contentType) && expectedSize.GetOr(|content|) == |content|))
    }
  }

  // The first two chunks of a stream, if it has them.
  method FirstTwo(stream: seq<bytes>, chunkBytes: nat)
    returns (source: ChunkSource, first: Option<bytes>, second: Option<bytes>)
    requires chunkBytes > 0
    ensures fresh(source) && fresh(source.chunk) && source.Valid() && source.chunkBytes == chunkBytes
    ensures first.None? ==> Flatten(stream) == []
    ensures first.Some? && second.None? ==> Flatten(stream) == first.value && |first.value| <= chunkBytes
    ensures first.Some? && second.Some? ==>
              Chunks(Flatten(stream), chunkBytes) == [first.value, second.value] + Chunks(source.Pending(), chunkBytes)
  {
    hide Chunks;
    source := new ChunkSource(stream, chunkBytes);
    ghost var content := Flatten(stream);
    second := None;
    first := source.Next();
    if first.None? {
      return;
    }
    ChunksSplit(content, chunkBytes);
    ghost var pending := source.Pending();
    assert content == first.value + pending;
    second := source.Next();
    if second.Some? {
      ChunksSplit(pending, chunkBytes);
      assert [first.value] + ([second.value] + Chunks(source.Pending(), chunkBytes))
          == [first.value, second.value] + Chunks(source.Pending(), chunkBytes);
    }
  }

  // What a blob must be to be stored.
  ghost predicate Storable(content: bytes, contentType: bytes) {
    && 1 <= |contentType| <= 1024 && (forall i :: 0 <= i < |contentType| ==> 32 <= contentType[i] <= 126)
    && |content| <= 9007199254740991
  }

  lemma LastChunk(content: bytes, done: seq<bytes>, chunkBytes: nat)
    requires chunkBytes > 0 && Chunks(content, chunkBytes) == done + Chunks([], chunkBytes)
    ensures done == Chunks(content, chunkBytes) && Flatten(done) == content
  {
    ChunksCover(content, chunkBytes);
    assert done + [] == done;
  }

  // The next chunk is a legal leaf, and the leaves up to it fit when the whole content does.
  lemma ChunkFits(content: bytes, mediaType: bytes, done: seq<bytes>, next: bytes, chunkBytes: nat, rest: seq<bytes>)
    requires 0 < chunkBytes <= CHUNK_BYTES && Chunks(content, chunkBytes) == done + ([next] + rest)
    ensures 1 <= |next| <= chunkBytes
    ensures Chunks(content, chunkBytes) == done + [next] + rest && Leaves(done + [next]) == Leaves(done) + [Leaf(next)]
    ensures |Flatten(done + [next])| == |Flatten(done)| + |next|
    ensures Storable(content, mediaType) ==> Fits(mediaType, -1, Leaves(done) + [Leaf(next)])
  {
    var chunks := Chunks(content, chunkBytes);
    ChunksCover(content, chunkBytes);
    assert next == chunks[|done|];
    assert chunks == done + [next] + rest;
    FlattenAppend(done, next);
    FlattenConcat(done + [next], rest);
    LeavesBytes(done + [next]);
    assert Leaves(done + [next]) == Leaves(done) + [Leaf(next)];
    forall i | 0 <= i < |done + [next]|
      ensures |(done + [next])[i]| >= 1
    {
      assert (done + [next])[i] == chunks[i];
    }
    AtLeastOneByteEach(done + [next]);
  }

  lemma {:induction false} AtLeastOneByteEach(parts: seq<bytes>)
    requires forall i :: 0 <= i < |parts| ==> |parts[i]| >= 1
    ensures |Flatten(parts)| >= |parts|
  {
    if parts != [] {
      AtLeastOneByteEach(parts[1..]);
    }
  }

  lemma NothingGrouped(fanout: nat)
    requires fanout >= 2
    ensures Groups([], fanout) == []
  {
  }

  lemma FirstChunksFit(content: bytes, mediaType: bytes, first: bytes, second: bytes, chunkBytes: nat, rest: seq<bytes>)
    requires 0 < chunkBytes <= CHUNK_BYTES && Chunks(content, chunkBytes) == [first, second] + rest
    ensures 1 <= |first| <= chunkBytes && 1 <= |second| <= chunkBytes
    ensures |Flatten([first, second])| == |first| + |second|
    ensures [] + [Leaf(first)] == [Leaf(first)] && [Leaf(first)] + [Leaf(second)] == Leaves([first, second])
    ensures Storable(content, mediaType) ==>
              Fits(mediaType, -1, [] + [Leaf(first)]) && Fits(mediaType, -1, [Leaf(first)] + [Leaf(second)])
  {
    hide Chunks, Fits, Storable;
    assert [first, second] + rest == [] + ([first] + ([second] + rest));
    ChunkFits(content, mediaType, [], first, chunkBytes, [second] + rest);
    assert [first, second] + rest == [first] + ([second] + rest) && [] + [first] == [first];
    assert [first] + [second] == [first, second];
    ChunkFits(content, mediaType, [first], second, chunkBytes, rest);
    assert Leaves([]) == [] && Flatten([]) == [];
    assert Leaves([first]) == [Leaf(first)];
  }

  lemma AllChunksFit(content: bytes, mediaType: bytes, chunkBytes: nat)
    requires 0 < chunkBytes <= CHUNK_BYTES
    ensures Flatten(Chunks(content, chunkBytes)) == content
    ensures Storable(content, mediaType) ==> Fits(mediaType, -1, Leaves(Chunks(content, chunkBytes)))
  {
    ChunksCover(content, chunkBytes);
    LeavesBytes(Chunks(content, chunkBytes));
    AtLeastOneByteEach(Chunks(content, chunkBytes));
  }

  // The finished root is the blob's, and could only be written for storable content.
  lemma RootIsHeld(w: Writer, content: bytes, chunkBytes: nat, root: TreeNode)
    requires 0 < chunkBytes <= CHUNK_BYTES && 2 <= w.fanout <= FANOUT && |content| > chunkBytes
    requires var t := BlobTreeOf(content, chunkBytes, w.fanout); GroupOf(w, [root], [t], Level(t))
    ensures root.hash == RootHash(w.digest, content, w.mediaType, chunkBytes, w.fanout) && root.hash in w.leased
    ensures CollisionFree(w.digest, w.seen) ==> HoldsBlob(w.digest, w.nodes, content, w.mediaType, chunkBytes, w.fanout)
    ensures Storable(content, w.mediaType)
  {
    hide BlobTreeOf, NodeOf, HashOf;
    var t := BlobTreeOf(content, chunkBytes, w.fanout);
    var level := BlobTreeIsShallow(content, chunkBytes, w.fanout);
    NodeLevel(w, root, t, level);
    RootIsTree(w.digest, content, w.mediaType, chunkBytes, w.fanout);
    assert [t][0] == t;
    assert Sound(w.mediaType, w.fanout, t, level);
    assert t.Branch?;
  }

  lemma LeafIsLegal(chunk: bytes)
    requires |chunk| <= CHUNK_BYTES
    ensures LegalNode(Node(CHUNK_TYPE, [], chunk), DEFAULT_LIMITS)
  {
    ContentTypes();
  }

  lemma PlainIsLegal(content: bytes, contentType: bytes)
    requires |content| <= CHUNK_BYTES
    ensures LegalNode(Node(contentType, [], content), DEFAULT_LIMITS) <==> Storable(content, contentType)
  {
  }

  lemma LeafIsStored(w: Writer, chunk: bytes)
    requires 1 <= |chunk| <= CHUNK_BYTES
    requires var hash := w.digest(Encode(Node(CHUNK_TYPE, [], chunk)));
             && hash in w.leased
             && (CollisionFree(w.digest, w.seen) ==> hash in w.nodes && w.nodes[hash] == Node(CHUNK_TYPE, [], chunk))
    ensures GroupOf(w, [TreeNode(w.digest(Encode(Node(CHUNK_TYPE, [], chunk))), |chunk|, -1)], [Leaf(chunk)], -1)
  {
    hide Encode;
    var t := Leaf(chunk);
    assert [t][0] == t;
    assert NodeOf(w.digest, w.mediaType, t) == Node(CHUNK_TYPE, [], chunk);
    assert HashOf(w.digest, w.mediaType, t) == w.digest(Encode(NodeOf(w.digest, w.mediaType, t)));
    assert Refs(w.digest, w.mediaType, [t]) == [RefOf(w.digest, w.mediaType, t)];
    assert CollisionFree(w.digest, w.seen) ==> Stored(w.digest, w.mediaType, w.nodes, t);
  }

  lemma {:induction false} LowestBehindEmpty<T>(groups: seq<seq<T>>, k: nat)
    requires k <= |groups| && forall i :: 0 <= i < k ==> groups[i] == []
    ensures Lowest(groups) == k + Lowest(groups[k..])
  {
    if k > 0 {
      LowestBehindEmpty(groups[1..], k - 1);
      assert groups[1..][k - 1..] == groups[k..];
    } else {
      assert groups[0..] == groups;
    }
  }

  lemma {:induction false} SameLowest<T, U>(a: seq<seq<T>>, b: seq<seq<U>>)
    requires |a| == |b| && forall i :: 0 <= i < |a| ==> |a[i]| == |b[i]|
    ensures Lowest(a) == Lowest(b)
  {
    if a != [] {
      SameLowest(a[1..], b[1..]);
    }
  }

  lemma GroupLength(w: Writer, group: seq<TreeNode>, trees: seq<Tree>, level: int)
    requires GroupOf(w, group, trees, level)
    ensures |group| == |trees|
  {
  }

  // Where the counter's lowest populated group lies, and the level it belongs to.
  ghost predicate Located(forest: seq<seq<Tree>>, lowest: nat, up: seq<Tree>, fanout: nat)
    requires fanout >= 2
  {
    && lowest < |forest| && (forall i :: 0 <= i < lowest ==> forest[i] == [])
    && up != [] && forest[lowest] == Tail(up, fanout) != []
    && forest[lowest + 1..] == Groups(Full(up, fanout), fanout)
    && (Count(forest) == 1 <==> |up| == 1)
  }

  lemma LocateInForest(forest: seq<seq<Tree>>, k: nat, m: seq<Tree>, fanout: nat) returns (up: seq<Tree>)
    requires fanout >= 2 && m != []
    requires k <= |forest| && forest[k..] == Groups(m, fanout) && forall i :: 0 <= i < k ==> forest[i] == []
    ensures Located(forest, Lowest(forest), up, fanout)
    ensures Build(up, fanout) == Build(m, fanout) && BytesAll(up) == BytesAll(m) && Lowest(forest) + |up| <= k + |m|
  {
    hide Build, BytesAll;
    LowestBehindEmpty(forest, k);
    up := Descend(m, fanout);
    var lowest := Lowest(forest);
    assert forest[k..][lowest - k..] == forest[lowest..];
    CountBehindEmpty(forest, lowest);
    CountOfGroups(up, fanout);
    SplitGroups(up, fanout, forest[lowest..]);
    assert forest[lowest..][1..] == forest[lowest + 1..];
  }

  // The lowest populated group is the open group of the level the counter stands for.
  lemma Locate(w: Writer, groups: seq<seq<TreeNode>>, forest: seq<seq<Tree>>, k: nat, m: seq<Tree>)
    returns (up: seq<Tree>)
    requires w.fanout >= 2 && GroupsOf(w, groups, forest) && m != []
    requires k <= |groups| && forest[k..] == Groups(m, w.fanout) && forall i :: 0 <= i < k ==> forest[i] == []
    ensures var lowest := Lowest(groups);
            && Located(forest, lowest, up, w.fanout) && GroupOf(w, groups[lowest], forest[lowest], lowest - 1)
            && groups[lowest] != [] && |groups[lowest]| < w.fanout
            && Build(up, w.fanout) == Build(m, w.fanout) && BytesAll(up) == BytesAll(m) && lowest + |up| <= k + |m|
    ensures Count(groups) == Count(forest)
  {
    hide GroupOf, Build, BytesAll, Groups, Full;
    forall i | 0 <= i < |groups|
      ensures |groups[i]| == |forest[i]|
    {
      GroupLength(w, groups[i], forest[i], i - 1);
    }
    SameLowest(groups, forest);
    SameCount(groups, forest);
    up := LocateInForest(forest, k, m, w.fanout);
  }

  lemma SingleNode(w: Writer, group: seq<TreeNode>, up: seq<Tree>, level: int)
    requires w.fanout >= 2 && |up| == 1 && GroupOf(w, group, Tail(up, w.fanout), level)
    ensures |group| == 1 && group == [group[0]]
    ensures GroupOf(w, [group[0]], [Build(up, w.fanout)], Level(Build(up, w.fanout)))
  {
    hide GroupOf;
    assert Tail(up, w.fanout) == up == [up[0]];
    GroupLength(w, group, up, level);
    assert group == [group[0]];
    NodeLevel(w, group[0], up[0], level);
  }

  lemma CollapseFits(mediaType: bytes, ts: seq<Tree>, up: seq<Tree>, lowest: nat, fanout: nat)
    requires fanout >= 2 && |up| >= 2 && Tail(up, fanout) != []
    requires BytesAll(up) == BytesAll(ts) && lowest + |up| <= |ts|
    ensures LevelUp(up, fanout) == Full(up, fanout) + [Branch(Tail(up, fanout))]
    ensures 1 <= |LevelUp(up, fanout)| < |up| && Build(up, fanout) == Build(LevelUp(up, fanout), fanout)
    ensures BytesAll(LevelUp(up, fanout)) == BytesAll(ts)
    ensures Fits(mediaType, -1, ts) ==> Fits(mediaType, lowest, LevelUp(up, fanout))
  {
    LevelUpKeepsBytes(up, fanout);
  }

  lemma StillEmpty(cleared: seq<seq<Tree>>, forest: seq<seq<Tree>>, lowest: nat)
    requires lowest < |forest| && lowest < |cleared| && forest[..lowest + 1] == cleared[..lowest + 1]
    requires forall i :: 0 <= i < lowest + 1 ==> cleared[i] == []
    ensures forall i :: 0 <= i < lowest + 1 ==> forest[i] == []
  {
    forall i | 0 <= i < lowest + 1
      ensures forest[i] == []
    {
      assert forest[i] == forest[..lowest + 1][i] == cleared[..lowest + 1][i];
    }
  }

  lemma GrowsReflexive(w: Writer)
    ensures Grows(w, w)
  {
  }

  lemma GrowsTransitive(a: Writer, b: Writer, c: Writer)
    requires Grows(a, b) && Grows(b, c)
    ensures Grows(a, c)
  {
  }

  lemma NoGroups(ts: seq<Tree>, fanout: nat)
    requires fanout >= 2 && Groups(ts, fanout) == []
    ensures ts == []
  {
  }

  lemma JoinGroups(ts: seq<Tree>, fanout: nat, forest: seq<seq<Tree>>, index: nat)
    requires fanout >= 2 && ts != [] && index < |forest|
    ensures forest[index] == Tail(ts, fanout) && forest[index + 1..] == Groups(Full(ts, fanout), fanout)
            ==> forest[index..] == Groups(ts, fanout)
  {
    assert forest[index..] == [forest[index]] + forest[index + 1..];
  }

  // Nothing about these nodes keeps the levels above them from being written.
  ghost predicate Fits(mediaType: bytes, level: int, ts: seq<Tree>) {
    LegalMediaType(mediaType) && |BytesAll(ts)| <= MAX_SAFE_INTEGER && level + |ts| <= MAX_SAFE_INTEGER
  }

  lemma LastFits(mediaType: bytes, level: int, ts: seq<Tree>, trees: seq<Tree>)
    ensures Fits(mediaType, level, ts + [Branch(trees)]) ==>
              |BytesAll(trees)| <= MAX_SAFE_INTEGER && level <= MAX_SAFE_INTEGER
  {
    BytesAllConcat(ts, [Branch(trees)]);
    BytesAllOne(Branch(trees));
    BranchBytes(trees);
  }

  // A completed group and the carry into the next level fit when the level did.
  lemma FullGroupFits(mediaType: bytes, level: int, ts: seq<Tree>, t: Tree, fanout: nat)
    requires fanout >= 2 && |Tail(ts, fanout)| + 1 == fanout && level >= -1
    ensures |Full(ts, fanout)| < |ts|
    ensures Fits(mediaType, level, ts + [t]) ==>
              Fits(mediaType, level + 1, Full(ts, fanout) + [Branch(Tail(ts, fanout) + [t])])
  {
    var group := Tail(ts, fanout) + [t];
    Carry(ts, t, fanout);
    GroupCount(ts, fanout);
    GroupingKeepsBytes(ts + [t], fanout);
    assert BytesEach([]) == [];
    BytesAllConcat(Full(ts, fanout), [Branch(group)]);
    BytesAllOne(Branch(group));
    BranchBytes(group);
  }

  // The open group of the lowest level, and the counter of the next one.
  lemma SplitGroups(ts: seq<Tree>, fanout: nat, groups: seq<seq<Tree>>)
    requires fanout >= 2 && groups != []
    requires groups == Groups(ts, fanout) || (ts == [] && groups == [[]])
    ensures groups[0] == Tail(ts, fanout) && groups[1..] == Groups(Full(ts, fanout), fanout)
  {
  }

  function SizesOf(children: seq<TreeNode>): (r: seq<int>)
    ensures |r| == |children|
  {
    seq(|children|, i requires 0 <= i < |children| => children[i].size)
  }

  function HashesOf(children: seq<TreeNode>): (r: seq<Hash>)
    ensures |r| == |children|
  {
    seq(|children|, i requires 0 <= i < |children| => children[i].hash)
  }

  // What the writer computes from a group is the index of the branch over it.
  lemma IndexMatchesTree(w: Writer, children: seq<TreeNode>, trees: seq<Tree>, level: int)
    requires GroupOf(w, children, trees, level) && 1 <= |children| <= w.fanout <= FANOUT
    ensures forall c :: c in children ==> c.level == level
    ensures Index(1, level + 1, Total(SizesOf(children)), w.mediaType, SizesOf(children)) == IndexOf(w.mediaType, Branch(trees))
    ensures LegalMediaType(w.mediaType) && |BytesAll(trees)| <= MAX_SAFE_INTEGER && level + 1 <= MAX_SAFE_INTEGER
            ==> ValidIndex(IndexOf(w.mediaType, Branch(trees)))
    ensures ValidIndex(IndexOf(w.mediaType, Branch(trees))) ==> Sound(w.mediaType, w.fanout, Branch(trees), level + 1)
  {
    forall i | 0 <= i < |trees|
      ensures Level(trees[i]) == level
    {
      SoundLevel(w.mediaType, w.fanout, trees[i], level);
    }
    SizesAddUp(trees);
    BranchBytes(trees);
    assert SizesOf(children) == Sizes(trees);
    SoundSizes(w.mediaType, w.fanout, trees, level);
  }

  lemma IndexNodeIsLegal(w: Writer, children: seq<TreeNode>, trees: seq<Tree>, level: int)
    requires GroupOf(w, children, trees, level) && 1 <= |children| <= w.fanout <= FANOUT
    requires ValidIndex(IndexOf(w.mediaType, Branch(trees))) && forall b :: |w.digest(b)| == HASH_SIZE
    ensures var node := Node(INDEX_TYPE, HashesOf(children), Wire(IndexOf(w.mediaType, Branch(trees))));
            && node == NodeOf(w.digest, w.mediaType, Branch(trees))
            && RawHashes(node.refs) && LegalNode(node, DEFAULT_LIMITS) && forall c :: c in node.refs ==> c in w.leased
  {
    hide Wire, ValidIndex, IndexOf;
    ContentTypes();
    WireIsShort(IndexOf(w.mediaType, Branch(trees)));
    var node := Node(INDEX_TYPE, HashesOf(children), Wire(IndexOf(w.mediaType, Branch(trees))));
    assert node.refs == NodeOf(w.digest, w.mediaType, Branch(trees)).refs;
    forall i | 0 <= i < |node.refs|
      ensures |node.refs[i]| == HASH_SIZE && node.refs[i] in w.leased
    {
      assert node.refs[i] == HashOf(w.digest, w.mediaType, trees[i]);
    }
  }

  // Once its node is in the store, so is the branch.
  lemma BranchIsStored(w: Writer, w': Writer, children: seq<TreeNode>, trees: seq<Tree>, level: int, r: TreeNode)
    requires GroupOf(w, children, trees, level) && Grows(w, w') && 1 <= |children| <= w.fanout <= FANOUT
    requires Sound(w.mediaType, w.fanout, Branch(trees), level + 1)
    requires var t := Branch(trees);
             && r == RefOf(w.digest, w.mediaType, t) && r.hash in w'.leased
             && (CollisionFree(w'.digest, w'.seen) ==>
                   r.hash in w'.nodes && w'.nodes[r.hash] == NodeOf(w.digest, w.mediaType, t))
    ensures GroupOf(w', [r], [Branch(trees)], level + 1)
  {
    hide NodeOf, Sound;
    GroupStays(w, w', children, trees, level);
    var t := Branch(trees);
    assert [t][0] == t;
    assert Refs(w.digest, w.mediaType, [t]) == [r];
  }

  // ----- reading with a loop over the children -----

  // What a read yields that has already yielded `out`.
  function Yielded(out: bytes, rest: Result<bytes, BlobError>): Result<bytes, BlobError> {
    match rest
    case Ok(more) => Ok(out + more)
    case Err(error) => Err(error)
  }

  lemma ReadNodesStep(nodes: NodeStore, refs: seq<Hash>, child: nat, level: int, mediaType: bytes, out: bytes)
    requires child < |refs| && level >= -1
    ensures Yielded(out, ReadNodes(nodes, refs[child..], level, mediaType))
            == match ReadNode(nodes, refs[child], Some(level), mediaType)
               case Ok(part) => Yielded(out + part, ReadNodes(nodes, refs[child + 1..], level, mediaType))
               case Err(error) => Err(error)
  {
    hide ReadNode;
    Shifted(refs, child);
    var part := ReadNode(nodes, refs[child], Some(level), mediaType);
    var rest := ReadNodes(nodes, refs[child + 1..], level, mediaType);
    if part.Ok? && rest.Ok? {
      assert out + (part.value + rest.value) == out + part.value + rest.value;
    }
  }

  /** Reads a whole node, child after child. */
  method ReadNodeInOrder(nodes: NodeStore, hash: Hash, expectedLevel: Option<int>, mediaType: bytes)
    returns (r: Result<bytes, BlobError>)
    ensures r == ReadNode(nodes, hash, expectedLevel, mediaType)
    decreases expectedLevel.None?, Depth(expectedLevel), 1
  {
    hide OpenIndex, ReadNodes;
    if hash !in nodes {
      return Err(NodeNotFound);
    }
    var node := nodes[hash];
    if node.contentType != INDEX_TYPE {
      var invalid := ValidateLeaf(node, expectedLevel);
      return if invalid.Some? then Err(invalid.value) else Ok(node.content);
    }
    var checked := OpenIndex(node, expectedLevel, mediaType);
    if checked.Err? {
      return Err(checked.error);
    }
    r := ReadNodesInOrder(nodes, node.refs, checked.value.level - 1, mediaType);
  }

  method ReadNodesInOrder(nodes: NodeStore, refs: seq<Hash>, level: int, mediaType: bytes)
    returns (r: Result<bytes, BlobError>)
    requires level >= -1
    ensures r == ReadNodes(nodes, refs, level, mediaType)
    decreases false, level + 1, 2
  {
    hide ReadNode, ReadNodes;
    var out: bytes := [];
    NothingYielded(ReadNodes(nodes, refs, level, mediaType));
    assert refs[0..] == refs;
    for child := 0 to |refs|
      invariant ReadNodes(nodes, refs, level, mediaType) == Yielded(out, ReadNodes(nodes, refs[child..], level, mediaType))
    {
      ReadNodesStep(nodes, refs, child, level, mediaType, out);
      var part := ReadNodeInOrder(nodes, refs[child], Some(level), mediaType);
      if part.Err? {
        return Err(part.error);
      }
      out := out + part.value;
    }
    NoNodesLeft(nodes, refs[|refs|..], level, mediaType, out);
    r := Ok(out);
  }

  lemma NothingYielded(r: Result<bytes, BlobError>)
    ensures Yielded([], r) == r
  {
    if r.Ok? {
      assert [] + r.value == r.value;
    }
  }

  lemma NoNodesLeft(nodes: NodeStore, refs: seq<Hash>, level: int, mediaType: bytes, out: bytes)
    requires level >= -1 && refs == []
    ensures Yielded(out, ReadNodes(nodes, refs, level, mediaType)) == Ok(out)
  {
    assert out + [] == out;
  }

  // One turn of the ranged loop: the child's part, and whether to go on.
  lemma ReadRangeStep(
    nodes: NodeStore, refs: seq<Hash>, sizes: seq<int>, child: nat, start: nat, offset: nat, end: nat, level: int,
    mediaType: bytes, out: bytes, part: Result<bytes, BlobError>)
    requires |refs| == |sizes| && child < |refs| && level >= -1 && AllPositive(sizes)
    requires var from, to := Max(offset, start), Min(end, start + sizes[child]);
             part == if from < to then ReadRangeNode(nodes, refs[child], from - start, to - from, Some(level), mediaType)
                     else Ok([])
    ensures var childEnd := start + sizes[child];
            Yielded(out, ReadRangeNodes(nodes, refs[child..], sizes[child..], start, offset, end, level, mediaType))
            == if part.Err? then Err(part.error)
               else if childEnd >= end then Ok(out + part.value)
               else Yielded(out + part.value,
                            ReadRangeNodes(nodes, refs[child + 1..], sizes[child + 1..], childEnd, offset, end, level, mediaType))
  {
    hide ReadRangeNode;
    Shifted(refs, child);
    Shifted(sizes, child);
    var rest := ReadRangeNodes(nodes, refs[child + 1..], sizes[child + 1..], start + sizes[child], offset, end, level, mediaType);
    if part.Ok? && rest.Ok? {
      assert out + (part.value + rest.value) == out + part.value + rest.value;
    }
  }

  /** Reads a range of one node. */
  method ReadRangeInOrder(
    nodes: NodeStore, hash: Hash, offset: nat, length: nat, expectedLevel: Option<int>, mediaType: bytes)
    returns (r: Result<bytes, BlobError>)
    ensures r == ReadRangeNode(nodes, hash, offset, length, expectedLevel, mediaType)
    decreases expectedLevel.None?, Depth(expectedLevel), 1
  {
    hide OpenIndex, ReadRangeNodes;
    if hash !in nodes {
      return Err(NodeNotFound);
    }
    var node := nodes[hash];
    if node.contentType != INDEX_TYPE {
      var invalid := ValidateLeaf(node, expectedLevel);
      return if invalid.Some? then Err(invalid.value) else ReadContentRange(node.content, offset, length);
    }
    var checked := OpenIndex(node, expectedLevel, mediaType);
    if checked.Err? {
      return Err(checked.error);
    }
    var index := checked.value;
    r := ReadRangeNodesInOrder(nodes, node.refs, index.children, offset, offset + length, index.level - 1, mediaType);
  }

  /** Reads a range of the children, keeping the running offset and stopping at the range's end. */
  method ReadRangeNodesInOrder(
    nodes: NodeStore, refs: seq<Hash>, sizes: seq<int>, offset: nat, end: nat, level: int, mediaType: bytes)
    returns (r: Result<bytes, BlobError>)
    requires |refs| == |sizes| && level >= -1 && AllPositive(sizes)
    ensures r == ReadRangeNodes(nodes, refs, sizes, 0, offset, end, level, mediaType)
    decreases false, level + 1, 2
  {
    hide ReadRangeNode, ReadRangeNodes;
    var out: bytes, childStart: nat := [], 0;
    NothingYielded(ReadRangeNodes(nodes, refs, sizes, 0, offset, end, level, mediaType));
    assert refs[0..] == refs && sizes[0..] == sizes;
    for child := 0 to |sizes|
      invariant ReadRangeNodes(nodes, refs, sizes, 0, offset, end, level, mediaType)
                == Yielded(out, ReadRangeNodes(nodes, refs[child..], sizes[child..], childStart, offset, end, level, mediaType))
    {
      var childEnd := childStart + sizes[child];
      var from, to := Max(offset, childStart), Min(end, childEnd);
      var part: Result<bytes, BlobError> := Ok([]);
      if from < to {
        part := ReadRangeInOrder(nodes, refs[child], from - childStart, to - from, Some(level), mediaType);
      }
      ReadRangeStep(nodes, refs, sizes, child, childStart, offset, end, level, mediaType, out, part);
      if part.Err? {
        return Err(part.error);
      }
      out := out + part.value;
      if childEnd >= end {
        return Ok(out);
      }
      childStart := childEnd;
    }
    NoRangeLeft(nodes, refs[|refs|..], sizes[|sizes|..], childStart, offset, end, level, mediaType, out);
    r := Ok(out);
  }

  lemma NoRangeLeft(
    nodes: NodeStore, refs: seq<Hash>, sizes: seq<int>, start: nat, offset: nat, end: nat, level: int, mediaType: bytes,
    out: bytes)
    requires refs == [] && sizes == [] && level >= -1
    ensures Yielded(out, ReadRangeNodes(nodes, refs, sizes, start, offset, end, level, mediaType)) == Ok(out)
  {
    assert out + [] == out;
  }

  /**
   * What a successful StoreBlob leaves reads back, from every later state of the store: unless
   * digests collide, opening the returned hash gives the stored bytes, whole and by every range,
   * if and only if the blob is not a single chunk under the index content type.
   */
  lemma StoredBlobReadsBack(
    c: BlobClient, content: bytes, contentType: bytes, expectedSize: Option<nat>, calm: bool,
    r: Result<BlobRef, BlobError>, later: NodeStore, range: Option<Range>)
    requires c.Valid() && c.StoresBlob(content, contentType, expectedSize, calm, r) && r.Ok? && c.NoCollision()
    requires Extends(c.Nodes(), later)
    ensures if LooksLikeIndex(content, contentType, c.chunkBytes) then ReadBlob(later, r.value.hash, range).Err?
            else ReadBlob(later, r.value.hash, range) == Expected(content, range)
  {
    hide ReadBlob, Expected, RootHash, HoldsBlob;
    BlobStays(c.digest, c.Nodes(), later, content, contentType, c.chunkBytes, c.indexFanout);
    BlobRoundTrip(c.digest, later, content, contentType, c.chunkBytes, c.indexFanout, range);
  }
}
