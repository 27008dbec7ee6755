// Blobs as nodes of the content-addressed store, and reading them back: whole or
// by range, one node at a time, checking every node against its parent.
module BlobRead {
  import opened Prelude
  import opened Codec
  import opened BlobIndex
  import opened BlobTree

  predicate PrintableText(s: string) {
    forall i :: 0 <= i < |s| ==> ' ' <= s[i] <= '~'
  }

  function Ascii(s: string): (r: bytes)
    requires PrintableText(s)
    ensures |r| == |s| && Printable(r)
  {
    seq(|s|, i requires 0 <= i < |s| => s[i] as int)
  }

  const VENDOR: bytes := Ascii("application/vnd.unicas.")
  const CHUNK_TYPE: bytes := VENDOR + Ascii("blob-chunk")
  const INDEX_TYPE: bytes := VENDOR + Ascii("blob-index+cbor;version=1")

  lemma ContentTypes()
    ensures LegalMediaType(CHUNK_TYPE) && LegalMediaType(INDEX_TYPE) && CHUNK_TYPE != INDEX_TYPE
  {
    hide Ascii;
    assert |CHUNK_TYPE| == 33 && |INDEX_TYPE| == 48;
  }

  ghost predicate IsSpelled(b: bytes, s: string) {
    |b| == |s| && forall i :: 0 <= i < |s| ==> b[i] == s[i] as int
  }

  /** The content types that mark chunks and indexes, in full. */
  lemma ContentTypesInFull()
    ensures IsSpelled(CHUNK_TYPE, "application/vnd.unicas.blob-chunk")
    ensures IsSpelled(INDEX_TYPE, "application/vnd.unicas.blob-index+cbor;version=1")
  {
    Spelled("application/vnd.unicas.", "blob-chunk");
    Spelled("application/vnd.unicas.", "blob-index+cbor;version=1");
    assert "application/vnd.unicas." + "blob-chunk" == "application/vnd.unicas.blob-chunk";
    assert "application/vnd.unicas." + "blob-index+cbor;version=1" == "application/vnd.unicas.blob-index+cbor;version=1";
  }

  lemma Spelled(a: string, b: string)
    requires PrintableText(a) && PrintableText(b)
    ensures IsSpelled(Ascii(a) + Ascii(b), a + b)
  {
  }

  // What the writer knows of a stored node.
  datatype TreeNode = TreeNode(hash: Hash, size: nat, level: int)

  datatype BlobRef = BlobRef(hash: Hash, size: nat, contentType: bytes)

  datatype Range = Range(offset: int, length: Option<int>)

  datatype BlobError =
    | NodeNotFound
    | NotABlobRoot
    | IndexInvalid
    | NotABlobLeaf
    | WrongLeaf
    | Inconsistent
    | InvalidRange
    | RangeNotSatisfied
    | StorageFailed
    | LevelMismatch
    | BlobSizeMismatch

  type NodeStore = map<Hash, Node>

  // ----- the nodes of a tree -----

  function IndexOf(mediaType: bytes, t: Tree): Index
    requires t.Branch?
  {
    Index(1, Level(t), |Bytes(t)|, mediaType, Sizes(t.children))
  }

  // An index that cannot be written has no node; the empty content stands for it.
  function IndexContent(v: Index): bytes {
    if ValidIndex(v) then Wire(v) else []
  }

  function NodeOf(digest: Digest, mediaType: bytes, t: Tree): Node
    decreases t, 0
  {
    match t
    case Leaf(data) => Node(CHUNK_TYPE, [], data)
    case Branch(children) =>
      Node(INDEX_TYPE,
           seq(|children|, i requires 0 <= i < |children| => HashOf(digest, mediaType, children[i])),
           IndexContent(IndexOf(mediaType, t)))
  }

  function HashOf(digest: Digest, mediaType: bytes, t: Tree): Hash
    decreases t, 1
  {
    digest(Encode(NodeOf(digest, mediaType, t)))
  }

  // The node and everything below it are in the store.
  ghost predicate Stored(digest: Digest, mediaType: bytes, nodes: NodeStore, t: Tree) {
    && HashOf(digest, mediaType, t) in nodes
    && nodes[HashOf(digest, mediaType, t)] == NodeOf(digest, mediaType, t)
    && (t.Branch? ==> forall i :: 0 <= i < |t.children| ==> Stored(digest, mediaType, nodes, t.children[i]))
  }

  ghost predicate AllStored(digest: Digest, mediaType: bytes, nodes: NodeStore, ts: seq<Tree>) {
    forall i :: 0 <= i < |ts| ==> Stored(digest, mediaType, nodes, ts[i])
  }

  predicate AllPositive(sizes: seq<int>) {
    forall i :: 0 <= i < |sizes| ==> sizes[i] > 0
  }

  ghost predicate Extends(nodes: NodeStore, nodes': NodeStore) {
    forall h :: h in nodes ==> h in nodes' && nodes'[h] == nodes[h]
  }

  lemma StoredStays(digest: Digest, mediaType: bytes, nodes: NodeStore, nodes': NodeStore, t: Tree)
    requires Stored(digest, mediaType, nodes, t) && Extends(nodes, nodes')
    ensures Stored(digest, mediaType, nodes', t)
  {
    hide HashOf, NodeOf;
    if t.Branch? {
      forall i | 0 <= i < |t.children|
        ensures Stored(digest, mediaType, nodes', t.children[i])
      {
        StoredStays(digest, mediaType, nodes, nodes', t.children[i]);
      }
    }
  }

  // ----- whole blobs -----

  // A blob of at most one chunk is a plain node of its own content type.
  function RootNode(digest: Digest, content: bytes, contentType: bytes, chunkBytes: nat, fanout: nat): Node
    requires chunkBytes > 0 && fanout >= 2
  {
    if |content| <= chunkBytes then Node(contentType, [], content)
    else NodeOf(digest, contentType, BlobTreeOf(content, chunkBytes, fanout))
  }

  /** The root hash is a function of the content, its media type, the chunk size and the fan-out. */
  function RootHash(digest: Digest, content: bytes, contentType: bytes, chunkBytes: nat, fanout: nat): Hash
    requires chunkBytes > 0 && fanout >= 2
  {
    digest(Encode(RootNode(digest, content, contentType, chunkBytes, fanout)))
  }

  ghost predicate HoldsBlob(
    digest: Digest, nodes: NodeStore, content: bytes, contentType: bytes, chunkBytes: nat, fanout: nat)
    requires chunkBytes > 0 && fanout >= 2
  {
    if |content| <= chunkBytes then
      var root := Node(contentType, [], content);
      digest(Encode(root)) in nodes && nodes[digest(Encode(root))] == root
    else
      var t := BlobTreeOf(content, chunkBytes, fanout);
      Stored(digest, contentType, nodes, t) && Sound(contentType, fanout, t, Level(t))
  }

  // A stored blob stays stored while the store only grows.
  lemma BlobStays(
    digest: Digest, nodes: NodeStore, nodes': NodeStore, content: bytes, contentType: bytes, chunkBytes: nat, fanout: nat)
    requires chunkBytes > 0 && fanout >= 2 && Extends(nodes, nodes')
    requires HoldsBlob(digest, nodes, content, contentType, chunkBytes, fanout)
    ensures HoldsBlob(digest, nodes', content, contentType, chunkBytes, fanout)
  {
    hide Stored, Sound, BlobTreeOf;
    if |content| > chunkBytes {
      StoredStays(digest, contentType, nodes, nodes', BlobTreeOf(content, chunkBytes, fanout));
    }
  }

  // ----- reading -----

  // What the node API returns for a byte range of one node.
  function ReadContentRange(content: bytes, offset: nat, length: nat): Result<bytes, BlobError> {
    if length == 0 then Ok([])
    else if offset >= |content| then Err(RangeNotSatisfied)
    else Ok(content[offset..Min(offset + length, |content|)])
  }

  function ReadIndex(content: bytes): Result<Index, BlobError> {
    match DecodeBlobIndex(content)
    case Ok(v) => Ok(v)
    case Err(_) => Err(IndexInvalid)
  }

  function ResolveBlobRef(nodes: NodeStore, hash: Hash): Result<BlobRef, BlobError> {
    if hash !in nodes then Err(NodeNotFound)
    else
      var node := nodes[hash];
      if node.contentType != INDEX_TYPE then
        if node.refs != [] then Err(NotABlobRoot) else Ok(BlobRef(hash, |node.content|, node.contentType))
      else
        var index :- ReadIndex(node.content);
        if |index.children| != |node.refs| then Err(Inconsistent) else
        IndexIsValid(node.content, index);
        Ok(BlobRef(hash, index.size, index.mediaType))
  }

  lemma IndexIsValid(content: bytes, index: Index)
    requires ReadIndex(content) == Ok(index)
    ensures ValidIndex(index)
  {
    DecodesIffEncoded(content, index);
  }

  function ValidateLeaf(node: Node, expectedLevel: Option<int>): Option<BlobError> {
    if node.refs != [] then Some(NotABlobLeaf)
    else if expectedLevel.Some? && (expectedLevel.value != -1 || node.contentType != CHUNK_TYPE) then Some(WrongLeaf)
    else None
  }

  predicate IndexMatches(index: Index, refCount: nat, expectedLevel: Option<int>, mediaType: bytes) {
    && index.mediaType == mediaType
    && (expectedLevel.Some? ==> index.level == expectedLevel.value)
    && |index.children| == refCount
  }

  // A checked inner node: its references and its index.
  function OpenIndex(node: Node, expectedLevel: Option<int>, mediaType: bytes): (r: Result<Index, BlobError>)
    ensures r.Ok? ==> ValidIndex(r.value) && IndexMatches(r.value, |node.refs|, expectedLevel, mediaType)
  {
    var index :- ReadIndex(node.content);
    IndexIsValid(node.content, index);
    if IndexMatches(index, |node.refs|, expectedLevel, mediaType) then Ok(index) else Err(Inconsistent)
  }

  // How far down a read can still go.
  function Depth(expectedLevel: Option<int>): int {
    if expectedLevel.Some? then expectedLevel.value + 1 else 0
  }

  function ReadNode(nodes: NodeStore, hash: Hash, expectedLevel: Option<int>, mediaType: bytes): Result<bytes, BlobError>
    decreases expectedLevel.None?, Depth(expectedLevel), 1, 0
  {
    if hash !in nodes then Err(NodeNotFound)
    else
      var node := nodes[hash];
      if node.contentType != INDEX_TYPE then
        match ValidateLeaf(node, expectedLevel)
        case Some(error) => Err(error)
        case None => Ok(node.content)
      else
        var index :- OpenIndex(node, expectedLevel, mediaType);
        ReadNodes(nodes, node.refs, index.level - 1, mediaType)
  }

  function ReadNodes(nodes: NodeStore, refs: seq<Hash>, level: int, mediaType: bytes): Result<bytes, BlobError>
    requires level >= -1
    decreases false, level + 1, 2, |refs|
  {
    if refs == [] then Ok([])
    else
      var first :- ReadNode(nodes, refs[0], Some(level), mediaType);
      var rest :- ReadNodes(nodes, refs[1..], level, mediaType);
      Ok(first + rest)
  }

  function ReadRangeNode(
    nodes: NodeStore, hash: Hash, offset: nat, length: nat, expectedLevel: Option<int>, mediaType: bytes)
    : Result<bytes, BlobError>
    decreases expectedLevel.None?, Depth(expectedLevel), 1, 0
  {
    if hash !in nodes then Err(NodeNotFound)
    else
      var node := nodes[hash];
      if node.contentType != INDEX_TYPE then
        match ValidateLeaf(node, expectedLevel)
        case Some(error) => Err(error)
        case None => ReadContentRange(node.content, offset, length)
      else
        var index :- OpenIndex(node, expectedLevel, mediaType);
        ReadRangeNodes(nodes, node.refs, index.children, 0, offset, offset + length, index.level - 1, mediaType)
  }

  function ReadRangeNodes(
    nodes: NodeStore, refs: seq<Hash>, sizes: seq<int>, start: nat, offset: nat, end: nat, level: int, mediaType: bytes)
    : Result<bytes, BlobError>
    requires |refs| == |sizes| && level >= -1 && AllPositive(sizes)
    decreases false, level + 1, 2, |refs|
  {
    if refs == [] then Ok([])
    else
      var childEnd := start + sizes[0];
      var from, to := Max(offset, start), Min(end, childEnd);
      var first :- if from < to
                   then ReadRangeNode(nodes, refs[0], from - start, to - from, Some(level), mediaType)
                   else Ok([]);
      if childEnd >= end then Ok(first)
      else
        var rest :- ReadRangeNodes(nodes, refs[1..], sizes[1..], childEnd, offset, end, level, mediaType);
        Ok(first + rest)
  }

  predicate SafeRange(range: Range) {
    && 0 <= range.offset <= MAX_SAFE_INTEGER
    && (range.length.Some? ==> 0 <= range.length.value <= MAX_SAFE_INTEGER)
  }

  /** Opening a blob and reading it, whole or by range. */
  function ReadBlob(nodes: NodeStore, hash: Hash, range: Option<Range>): Result<bytes, BlobError> {
    var blob :- ResolveBlobRef(nodes, hash);
    match range
    case None => ReadNode(nodes, hash, None, blob.contentType)
    case Some(r) =>
      if !SafeRange(r) then Err(InvalidRange)
      else if r.offset > blob.size then Err(RangeNotSatisfied)
      else
        var length := Min(r.length.GetOr(blob.size - r.offset), blob.size - r.offset);
        if length == 0 then Ok([])
        else ReadRangeNode(nodes, hash, r.offset, length, None, blob.contentType)
  }

  // What a read of `content` must return.
  function Expected(content: bytes, range: Option<Range>): Result<bytes, BlobError> {
    match range
    case None => Ok(content)
    case Some(r) =>
      if !SafeRange(r) then Err(InvalidRange)
      else if r.offset > |content| then Err(RangeNotSatisfied)
      else if r.length.None? then Ok(content[r.offset..])
      else Ok(content[r.offset..Min(r.offset + r.length.value, |content|)])
  }

  // ----- reading a stored tree -----

  // What the reader finds in the node of a branch.
  lemma OpensBranch(digest: Digest, mediaType: bytes, fanout: nat, t: Tree, level: int, expectedLevel: Option<int>)
    requires Sound(mediaType, fanout, t, level) && t.Branch?
    requires expectedLevel.Some? ==> expectedLevel.value == level
    ensures var node := NodeOf(digest, mediaType, t);
            && node.contentType == INDEX_TYPE && |node.refs| == |t.children|
            && OpenIndex(node, expectedLevel, mediaType) == Ok(IndexOf(mediaType, t))
            && IndexOf(mediaType, t).level == level && ValidIndex(IndexOf(mediaType, t))
  {
    SoundLevel(mediaType, fanout, t, level);
    DecodesIffEncoded(Wire(IndexOf(mediaType, t)), IndexOf(mediaType, t));
  }

  lemma {:induction false} ReadsTree(
    digest: Digest, mediaType: bytes, fanout: nat, nodes: NodeStore, t: Tree, level: int, expectedLevel: Option<int>)
    requires Stored(digest, mediaType, nodes, t) && Sound(mediaType, fanout, t, level)
    requires expectedLevel.Some? ==> expectedLevel.value == level
    ensures ReadNode(nodes, HashOf(digest, mediaType, t), expectedLevel, mediaType) == Ok(Bytes(t))
    decreases t, 1
  {
    hide HashOf, ReadNode, ReadNodes, OpenIndex, BytesAll, Sizes, ValidIndex;
    var hash := HashOf(digest, mediaType, t);
    StoredNode(digest, mediaType, nodes, t);
    if t.Leaf? {
      LeafReads(nodes, hash, t.data, expectedLevel, mediaType);
    } else {
      OpensBranch(digest, mediaType, fanout, t, level, expectedLevel);
      BranchReads(nodes, hash, expectedLevel, mediaType);
      ReadsForest(digest, mediaType, fanout, nodes, t, 0, level - 1);
      var refs := NodeOf(digest, mediaType, t).refs;
      assert refs[0..] == refs && t.children[0..] == t.children;
      BranchBytes(t.children);
    }
  }

  lemma LeafReads(nodes: NodeStore, hash: Hash, data: bytes, expectedLevel: Option<int>, mediaType: bytes)
    requires hash in nodes && nodes[hash] == Node(CHUNK_TYPE, [], data)
    requires expectedLevel.Some? ==> expectedLevel.value == -1
    ensures ReadNode(nodes, hash, expectedLevel, mediaType) == Ok(data)
  {
    ContentTypes();
  }

  lemma BranchReads(nodes: NodeStore, hash: Hash, expectedLevel: Option<int>, mediaType: bytes)
    requires hash in nodes && nodes[hash].contentType == INDEX_TYPE
    requires OpenIndex(nodes[hash], expectedLevel, mediaType).Ok?
    ensures var index := OpenIndex(nodes[hash], expectedLevel, mediaType).value;
            ReadNode(nodes, hash, expectedLevel, mediaType) == ReadNodes(nodes, nodes[hash].refs, index.level - 1, mediaType)
  {
    hide OpenIndex, ReadNodes;
  }

  // The children from `i` on, read in order.
  lemma {:induction false} ReadsForest(
    digest: Digest, mediaType: bytes, fanout: nat, nodes: NodeStore, t: Tree, i: nat, level: int)
    requires t.Branch? && i <= |t.children| && level >= -1
    requires AllStored(digest, mediaType, nodes, t.children) && AllSound(mediaType, fanout, t.children, level)
    ensures ReadNodes(nodes, NodeOf(digest, mediaType, t).refs[i..], level, mediaType) == Ok(BytesAll(t.children[i..]))
    decreases t, 0, |t.children| - i
  {
    hide HashOf, ReadNode;
    var refs := NodeOf(digest, mediaType, t).refs;
    if i < |t.children| {
      ReadsTree(digest, mediaType, fanout, nodes, t.children[i], level, Some(level));
      ReadsForest(digest, mediaType, fanout, nodes, t, i + 1, level);
      assert refs[i..][1..] == refs[i + 1..];
      SplitFirst(t.children, i);
    } else {
      assert BytesEach(t.children[i..]) == [];
    }
  }

  lemma SplitFirst(ts: seq<Tree>, i: nat)
    requires i < |ts|
    ensures BytesAll(ts[i..]) == Bytes(ts[i]) + BytesAll(ts[i + 1..])
  {
    assert ts[i..] == [ts[i]] + ts[i + 1..];
    BytesAllConcat([ts[i]], ts[i + 1..]);
    BytesAllOne(ts[i]);
  }

  lemma RangeOfLeaf(
    nodes: NodeStore, hash: Hash, data: bytes, offset: nat, length: nat, expectedLevel: Option<int>, mediaType: bytes)
    requires hash in nodes && nodes[hash] == Node(CHUNK_TYPE, [], data)
    requires expectedLevel.Some? ==> expectedLevel.value == -1
    requires 0 < length && offset + length <= |data|
    ensures ReadRangeNode(nodes, hash, offset, length, expectedLevel, mediaType) == Ok(data[offset..offset + length])
  {
    ContentTypes();
  }

  lemma RangeOfBranch(
    nodes: NodeStore, hash: Hash, offset: nat, length: nat, expectedLevel: Option<int>, mediaType: bytes)
    requires hash in nodes && nodes[hash].contentType == INDEX_TYPE
    requires OpenIndex(nodes[hash], expectedLevel, mediaType).Ok?
    ensures var index := OpenIndex(nodes[hash], expectedLevel, mediaType).value;
            ReadRangeNode(nodes, hash, offset, length, expectedLevel, mediaType)
            == ReadRangeNodes(nodes, nodes[hash].refs, index.children, 0, offset, offset + length, index.level - 1, mediaType)
  {
    hide OpenIndex, ReadRangeNodes;
  }

  lemma StoredNode(digest: Digest, mediaType: bytes, nodes: NodeStore, t: Tree)
    requires Stored(digest, mediaType, nodes, t)
    ensures HashOf(digest, mediaType, t) in nodes
    ensures nodes[HashOf(digest, mediaType, t)] == NodeOf(digest, mediaType, t)
  {
  }

  lemma {:induction false} ReadsTreeRange(
    digest: Digest, mediaType: bytes, fanout: nat, nodes: NodeStore, t: Tree, level: int, expectedLevel: Option<int>,
    offset: nat, length: nat)
    requires Stored(digest, mediaType, nodes, t) && Sound(mediaType, fanout, t, level)
    requires expectedLevel.Some? ==> expectedLevel.value == level
    requires 0 < length && offset + length <= |Bytes(t)|
    ensures ReadRangeNode(nodes, HashOf(digest, mediaType, t), offset, length, expectedLevel, mediaType)
            == Ok(Bytes(t)[offset..offset + length])
    decreases t, 1
  {
    hide HashOf, NodeOf, ReadRangeNode, ReadRangeNodes, Stored, Sound, Bytes, BytesAll, Sizes;
    if t.Leaf? {
      StoredLeafRange(digest, mediaType, fanout, nodes, t, level, expectedLevel, offset, length);
    } else {
      BranchParts(digest, mediaType, fanout, nodes, t, level);
      BranchRange(digest, mediaType, fanout, nodes, t, level, expectedLevel, offset, length);
      var refs := NodeOf(digest, mediaType, t).refs;
      assert refs[0..] == refs && t.children[0..] == t.children && Sizes(t.children)[0..] == Sizes(t.children);
      ReadsForestRange(digest, mediaType, fanout, nodes, t, 0, level - 1, 0, offset, offset + length);
    }
  }

  lemma StoredLeafRange(
    digest: Digest, mediaType: bytes, fanout: nat, nodes: NodeStore, t: Tree, level: int, expectedLevel: Option<int>,
    offset: nat, length: nat)
    requires t.Leaf? && Stored(digest, mediaType, nodes, t) && Sound(mediaType, fanout, t, level)
    requires expectedLevel.Some? ==> expectedLevel.value == level
    requires 0 < length && offset + length <= |Bytes(t)|
    ensures ReadRangeNode(nodes, HashOf(digest, mediaType, t), offset, length, expectedLevel, mediaType)
            == Ok(Bytes(t)[offset..offset + length])
  {
    hide HashOf, ReadRangeNode;
    RangeOfLeaf(nodes, HashOf(digest, mediaType, t), t.data, offset, length, expectedLevel, mediaType);
  }

  // What is stored and sound of a branch is stored and sound of its children, and they hold its bytes.
  lemma BranchParts(digest: Digest, mediaType: bytes, fanout: nat, nodes: NodeStore, t: Tree, level: int)
    requires t.Branch? && Stored(digest, mediaType, nodes, t) && Sound(mediaType, fanout, t, level)
    ensures level >= 0 && AllStored(digest, mediaType, nodes, t.children)
    ensures AllSound(mediaType, fanout, t.children, level - 1)
    ensures Bytes(t) == BytesAll(t.children) && |NodeOf(digest, mediaType, t).refs| == |t.children|
  {
    hide HashOf, Bytes, BytesAll;
    BranchBytes(t.children);
    assert t == Branch(t.children);
  }

  // A stored branch opens to its index, so its range is read out of its children.
  lemma BranchRange(
    digest: Digest, mediaType: bytes, fanout: nat, nodes: NodeStore, t: Tree, level: int, expectedLevel: Option<int>,
    offset: nat, length: nat)
    requires t.Branch? && Stored(digest, mediaType, nodes, t) && Sound(mediaType, fanout, t, level)
    requires expectedLevel.Some? ==> expectedLevel.value == level
    ensures AllPositive(Sizes(t.children)) && |NodeOf(digest, mediaType, t).refs| == |Sizes(t.children)|
    ensures ReadRangeNode(nodes, HashOf(digest, mediaType, t), offset, length, expectedLevel, mediaType)
            == ReadRangeNodes(nodes, NodeOf(digest, mediaType, t).refs, Sizes(t.children), 0, offset, offset + length,
                              level - 1, mediaType)
  {
    hide HashOf, ReadRangeNode, ReadRangeNodes, OpenIndex, BytesAll, Sizes, ValidIndex;
    StoredNode(digest, mediaType, nodes, t);
    OpensBranch(digest, mediaType, fanout, t, level, expectedLevel);
    RangeOfBranch(nodes, HashOf(digest, mediaType, t), offset, length, expectedLevel, mediaType);
    SoundSizes(mediaType, fanout, t.children, level - 1);
  }

  // One turn of the loop over the children, when its reads succeed.
  lemma RangeStep(
    nodes: NodeStore, refs: seq<Hash>, sizes: seq<int>, start: nat, offset: nat, end: nat, level: int, mediaType: bytes,
    first: bytes, rest: bytes)
    requires |refs| == |sizes| > 0 && level >= -1 && AllPositive(sizes)
    requires var from, to := Max(offset, start), Min(end, start + sizes[0]);
             if from < to
             then ReadRangeNode(nodes, refs[0], from - start, to - from, Some(level), mediaType) == Ok(first)
             else first == []
    requires var childEnd := start + sizes[0];
             if childEnd < end
             then ReadRangeNodes(nodes, refs[1..], sizes[1..], childEnd, offset, end, level, mediaType) == Ok(rest)
             else rest == []
    ensures ReadRangeNodes(nodes, refs, sizes, start, offset, end, level, mediaType) == Ok(first + rest)
  {
    hide ReadRangeNode;
    assert first + [] == first;
  }

  // The same turn in terms of the content: the child's bytes, then the others'.
  lemma RangeStepCuts(
    nodes: NodeStore, refs: seq<Hash>, sizes: seq<int>, start: nat, offset: nat, end: nat, level: int, mediaType: bytes,
    child: bytes, others: bytes)
    requires |refs| == |sizes| > 0 && level >= -1 && AllPositive(sizes) && sizes[0] == |child|
    requires offset < end && start < end <= start + |child| + |others|
    requires var from, to := Max(offset, start), Min(end, start + sizes[0]);
             from < to ==>
               ReadRangeNode(nodes, refs[0], from - start, to - from, Some(level), mediaType)
               == Ok(child[from - start..to - start])
    requires var childEnd := start + sizes[0];
             childEnd < end ==>
               ReadRangeNodes(nodes, refs[1..], sizes[1..], childEnd, offset, end, level, mediaType)
               == Ok(others[Max(offset, childEnd) - childEnd..end - childEnd])
    ensures ReadRangeNodes(nodes, refs, sizes, start, offset, end, level, mediaType)
            == Ok((child + others)[Max(offset, start) - start..end - start])
  {
    hide ReadRangeNode, ReadRangeNodes;
    var childEnd := start + |child|;
    var from, to := Max(offset, start), Min(end, childEnd);
    var first := if from < to then child[from - start..to - start] else [];
    var rest := if childEnd < end then others[Max(offset, childEnd) - childEnd..end - childEnd] else [];
    RangeStep(nodes, refs, sizes, start, offset, end, level, mediaType, first, rest);
    CutAcross(child, others, from - start, end - start);
  }

  // The children from `i` on start at `start`; a range that ends inside them is read exactly.
  lemma {:induction false} ReadsForestRange(
    digest: Digest, mediaType: bytes, fanout: nat, nodes: NodeStore, t: Tree, i: nat, level: int,
    start: nat, offset: nat, end: nat)
    requires t.Branch? && i <= |t.children| && level >= -1
    requires AllStored(digest, mediaType, nodes, t.children) && AllSound(mediaType, fanout, t.children, level)
    requires AllPositive(Sizes(t.children))
    requires offset < end && offset < start + |BytesAll(t.children[i..])| && start < end <= start + |BytesAll(t.children[i..])|
    ensures var from := Max(offset, start);
            ReadRangeNodes(nodes, NodeOf(digest, mediaType, t).refs[i..], Sizes(t.children)[i..], start, offset, end, level, mediaType)
            == Ok(BytesAll(t.children[i..])[from - start..end - start])
    decreases t, 0, |t.children| - i
  {
    hide HashOf, ReadRangeNode, ReadRangeNodes, Sound, Stored, BytesAll, Bytes;
    SomethingLeft(t.children, i);
    var refs, sizes := NodeOf(digest, mediaType, t).refs, Sizes(t.children);
    assert refs[i] == HashOf(digest, mediaType, t.children[i]) && |refs| == |sizes| == |t.children|;
    var child, others := Bytes(t.children[i]), BytesAll(t.children[i + 1..]);
    assert sizes[i] == |child|;
    PositiveSuffix(sizes, i);
    PositiveSuffix(sizes, i + 1);
    SplitFirst(t.children, i);
    Shifted(refs, i);
    Shifted(sizes, i);
    var childEnd := start + |child|;
    ReadsChildRange(digest, mediaType, fanout, nodes, t, i, level, start, offset, end);
    hide NodeOf, Sizes, AllSound, AllStored, AllPositive, BytesEach;
    assert childEnd < end ==>
        ReadRangeNodes(nodes, refs[i + 1..], sizes[i + 1..], childEnd, offset, end, level, mediaType)
        == Ok(others[Max(offset, childEnd) - childEnd..end - childEnd])
    by {
      if childEnd < end {
        ReadsForestRange(digest, mediaType, fanout, nodes, t, i + 1, level, childEnd, offset, end);
      }
    }
    RangeStepCuts(nodes, refs[i..], sizes[i..], start, offset, end, level, mediaType, child, others);
  }

  // The part of the range that falls into the child at `i`.
  lemma ReadsChildRange(
    digest: Digest, mediaType: bytes, fanout: nat, nodes: NodeStore, t: Tree, i: nat, level: int,
    start: nat, offset: nat, end: nat)
    requires t.Branch? && i < |t.children| && level >= -1
    requires AllStored(digest, mediaType, nodes, t.children) && AllSound(mediaType, fanout, t.children, level)
    ensures var child := Bytes(t.children[i]);
            var from, to := Max(offset, start), Min(end, start + |child|);
            from < to ==>
              ReadRangeNode(nodes, HashOf(digest, mediaType, t.children[i]), from - start, to - from, Some(level), mediaType)
              == Ok(child[from - start..to - start])
    decreases t, 0, 0
  {
    hide HashOf, ReadRangeNode, Sound, Stored, Bytes;
    var from, to := Max(offset, start), Min(end, start + |Bytes(t.children[i])|);
    if from < to {
      ReadsTreeRange(digest, mediaType, fanout, nodes, t.children[i], level, Some(level), from - start, to - from);
    }
  }

  lemma SomethingLeft(ts: seq<Tree>, i: nat)
    requires i <= |ts| && |BytesAll(ts[i..])| > 0
    ensures i < |ts|
  {
    assert BytesEach(ts[|ts|..]) == [];
  }

  lemma PositiveSuffix(sizes: seq<int>, i: nat)
    requires i <= |sizes| && AllPositive(sizes)
    ensures AllPositive(sizes[i..])
  {
  }

  lemma Shifted<T>(s: seq<T>, i: nat)
    requires i < |s|
    ensures s[i..][1..] == s[i + 1..] && s[i..][0] == s[i]
  {
  }

  // A slice of two pieces put together.
  lemma CutAcross(a: bytes, b: bytes, from: nat, to: nat)
    requires from <= to <= |a| + |b|
    ensures (a + b)[from..to] ==
            (if from < Min(to, |a|) then a[from..Min(to, |a|)] else [])
            + (if to > |a| then b[Max(from, |a|) - |a|..to - |a|] else [])
  {
  }

  // ----- the round trip -----

  // The one family the reader cannot open: its root looks like an index and has no children.
  predicate LooksLikeIndex(content: bytes, contentType: bytes, chunkBytes: nat) {
    |content| <= chunkBytes && contentType == INDEX_TYPE
  }

  /** Such a blob exists: the empty content under the index type is stored and can never be opened. */
  lemma IndexLookalikeIsUnreadable(digest: Digest, chunkBytes: nat, fanout: nat)
    requires 0 < chunkBytes <= CHUNK_BYTES && 2 <= fanout <= FANOUT
    ensures var root := Node(INDEX_TYPE, [], []);
            var nodes: NodeStore := map[digest(Encode(root)) := root];
            && LegalNode(root, DEFAULT_LIMITS) && HoldsBlob(digest, nodes, [], INDEX_TYPE, chunkBytes, fanout)
            && ReadBlob(nodes, RootHash(digest, [], INDEX_TYPE, chunkBytes, fanout), None).Err?
  {
    ContentTypes();
    var root := Node(INDEX_TYPE, [], []);
    NodeRoundTrip(map[digest(Encode(root)) := root], digest(Encode(root)), [], INDEX_TYPE, None);
  }

  /**
   * A stored blob reads back as what was stored, whole and by every range, if and only if it is not
   * a blob of at most one chunk stored under the index content type.
   */
  lemma BlobRoundTrip(
    digest: Digest, nodes: NodeStore, content: bytes, contentType: bytes, chunkBytes: nat, fanout: nat,
    range: Option<Range>)
    requires 0 < chunkBytes <= CHUNK_BYTES && 2 <= fanout <= FANOUT
    requires HoldsBlob(digest, nodes, content, contentType, chunkBytes, fanout)
    ensures var hash := RootHash(digest, content, contentType, chunkBytes, fanout);
            if LooksLikeIndex(content, contentType, chunkBytes) then ReadBlob(nodes, hash, range).Err?
            else ReadBlob(nodes, hash, range) == Expected(content, range)
  {
    hide Sound, Stored, ReadBlob, Expected, BlobTreeOf;
    if |content| > chunkBytes {
      TreeRoundTrip(digest, nodes, content, contentType, chunkBytes, fanout, range);
    } else {
      NodeRoundTrip(nodes, digest(Encode(Node(contentType, [], content))), content, contentType, range);
    }
  }

  // The clamped length gives the expected slice, also when nothing is left to read.
  lemma ExpectedSlice(content: bytes, range: Option<Range>)
    requires range.Some? && SafeRange(range.value) && range.value.offset <= |content|
    ensures var (offset, rest) := (range.value.offset, |content| - range.value.offset);
            Expected(content, range) == Ok(content[offset..offset + Min(range.value.length.GetOr(rest), rest)])
  {
    var offset := range.value.offset;
    assert content[offset..] == content[offset..|content|];
  }

  lemma NodeRoundTrip(nodes: NodeStore, hash: Hash, content: bytes, contentType: bytes, range: Option<Range>)
    requires hash in nodes && nodes[hash] == Node(contentType, [], content)
    ensures if contentType == INDEX_TYPE then ReadBlob(nodes, hash, range).Err?
            else ReadBlob(nodes, hash, range) == Expected(content, range)
  {
    hide ReadIndex, OpenIndex;
    if range.Some? && SafeRange(range.value) && range.value.offset <= |content| {
      ExpectedSlice(content, range);
    }
    if range.Some? && SafeRange(range.value) && range.value.offset <= |content| {
      var offset, rest := range.value.offset, |content| - range.value.offset;
      var length := Min(range.value.length.GetOr(rest), rest);
      assert length == 0 ==> content[offset..offset + length] == [];
      assert length > 0 ==> ReadContentRange(content, offset, length) == Ok(content[offset..offset + length]);
    }
    if contentType == INDEX_TYPE && ReadIndex(content).Ok? {
      IndexIsValid(content, ReadIndex(content).value);
    }
  }

  lemma TreeRoundTrip(
    digest: Digest, nodes: NodeStore, content: bytes, contentType: bytes, chunkBytes: nat, fanout: nat,
    range: Option<Range>)
    requires 0 < chunkBytes <= CHUNK_BYTES && 2 <= fanout <= FANOUT && |content| > chunkBytes
    requires HoldsBlob(digest, nodes, content, contentType, chunkBytes, fanout)
    ensures ReadBlob(nodes, RootHash(digest, content, contentType, chunkBytes, fanout), range) == Expected(content, range)
  {
    hide ReadNode, ReadRangeNode, HashOf, NodeOf, BlobTreeOf, ResolveBlobRef, Sound;
    var t := BlobTreeOf(content, chunkBytes, fanout);
    var hash := HashOf(digest, contentType, t);
    var level := BlobTreeIsShallow(content, chunkBytes, fanout);
    if range.Some? && SafeRange(range.value) && range.value.offset <= |content| {
      ExpectedSlice(content, range);
    }
    RootIsTree(digest, content, contentType, chunkBytes, fanout);
    ResolvesTree(digest, contentType, fanout, nodes, t, level);
    ReadsTree(digest, contentType, fanout, nodes, t, level, None);
    if range.Some? && SafeRange(range.value) && range.value.offset <= |content| {
      var rest := |content| - range.value.offset;
      var length := Min(range.value.length.GetOr(rest), rest);
      if length > 0 {
        ReadsTreeRange(digest, contentType, fanout, nodes, t, level, None, range.value.offset, length);
      }
    }
  }

  lemma ResolvesTree(digest: Digest, mediaType: bytes, fanout: nat, nodes: NodeStore, t: Tree, level: int)
    requires Stored(digest, mediaType, nodes, t) && Sound(mediaType, fanout, t, level) && level >= 0
    ensures var hash := HashOf(digest, mediaType, t);
            ResolveBlobRef(nodes, hash) == Ok(BlobRef(hash, |Bytes(t)|, mediaType))
  {
    hide HashOf, ReadIndex;
    OpensBranch(digest, mediaType, fanout, t, level, None);
    StoredNode(digest, mediaType, nodes, t);
  }

  lemma RootIsTree(digest: Digest, content: bytes, contentType: bytes, chunkBytes: nat, fanout: nat)
    requires chunkBytes > 0 && fanout >= 2 && |content| > chunkBytes
    ensures RootHash(digest, content, contentType, chunkBytes, fanout)
            == HashOf(digest, contentType, BlobTreeOf(content, chunkBytes, fanout))
  {
  }
}
