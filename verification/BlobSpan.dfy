// What a read of a blob means, said without reading: which nodes have to be in the
// store, of which kind, and how the bytes are put together from them. A read answers
// exactly that, on every store; so a missing or ill-typed node on the way is an error.
module BlobSpan {
  import opened Prelude
  import opened Codec
  import opened BlobIndex
  import opened BlobRead

  // The content is the encoding of this index, over as many references as it has children.
  ghost predicate IsIndex(node: Node, index: Index) {
    node.contentType == INDEX_TYPE && ValidIndex(index) && node.content == Wire(index) && |index.children| == |node.refs|
  }

  // A node without references, and below an index a chunk directly under its lowest level.
  ghost predicate IsLeaf(node: Node, level: Option<int>) {
    node.contentType != INDEX_TYPE && node.refs == [] && (level.Some? ==> level.value == -1 && node.contentType == CHUNK_TYPE)
  }

  ghost predicate FitsIn(index: Index, level: Option<int>, mediaType: bytes) {
    index.mediaType == mediaType && (level.Some? ==> index.level == level.value)
  }

  /** The node and everything it reaches by references is there, level by level, and spells these bytes in order. */
  ghost predicate Spans(nodes: NodeStore, hash: Hash, level: Option<int>, mediaType: bytes, content: bytes)
    decreases level.None?, Depth(level), 0
  {
    && hash in nodes
    && if nodes[hash].contentType != INDEX_TYPE then IsLeaf(nodes[hash], level) && content == nodes[hash].content
       else exists index: Index, parts: seq<bytes> ::
              && IsIndex(nodes[hash], index) && FitsIn(index, level, mediaType)
              && SpansAll(nodes, nodes[hash].refs, index.level, mediaType, parts) && content == Flatten(parts)
  }

  ghost predicate SpansAll(nodes: NodeStore, refs: seq<Hash>, above: nat, mediaType: bytes, parts: seq<bytes>)
    decreases false, above, 1
  {
    |parts| == |refs| && forall i :: 0 <= i < |refs| ==> Spans(nodes, refs[i], Some(above - 1), mediaType, parts[i])
  }

  lemma OpensIndex(node: Node, level: Option<int>, mediaType: bytes, index: Index)
    requires node.contentType == INDEX_TYPE
    ensures OpenIndex(node, level, mediaType) == Ok(index) <==> IsIndex(node, index) && FitsIn(index, level, mediaType)
  {
    DecodesIffEncoded(node.content, index);
  }

  lemma OnlyOneIndex(node: Node, a: Index, b: Index)
    requires IsIndex(node, a) && IsIndex(node, b)
    ensures a == b
  {
    WireIsInjective(a, b);
  }

  /** A whole read answers bytes exactly when the node spans them. */
  lemma {:induction false} ReadsWhatSpans(nodes: NodeStore, hash: Hash, level: Option<int>, mediaType: bytes, content: bytes)
    ensures ReadNode(nodes, hash, level, mediaType) == Ok(content) <==> Spans(nodes, hash, level, mediaType, content)
    ensures hash !in nodes ==> ReadNode(nodes, hash, level, mediaType) == Err(NodeNotFound)
    decreases level.None?, Depth(level), 0
  {
    hide ReadNodes, OpenIndex, SpansAll, IsIndex, ValidIndex;
    if hash in nodes && nodes[hash].contentType == INDEX_TYPE {
      IndexReads(nodes, hash, level, mediaType, content);
      IndexSpans(nodes, hash, level, mediaType, content);
    }
  }

  lemma IndexReads(nodes: NodeStore, hash: Hash, level: Option<int>, mediaType: bytes, content: bytes)
    requires hash in nodes && nodes[hash].contentType == INDEX_TYPE
    ensures ReadNode(nodes, hash, level, mediaType) == Ok(content) ==> Spans(nodes, hash, level, mediaType, content)
    decreases level.None?, Depth(level), 0, 0
  {
    hide ReadNodes, OpenIndex, SpansAll;
    var node := nodes[hash];
    if ReadNode(nodes, hash, level, mediaType) == Ok(content) {
      var index := OpenIndex(node, level, mediaType).value;
      OpensIndex(node, level, mediaType, index);
      var parts := PartsRead(nodes, node.refs, index.level, mediaType, content);
    }
  }

  lemma IndexSpans(nodes: NodeStore, hash: Hash, level: Option<int>, mediaType: bytes, content: bytes)
    requires hash in nodes && nodes[hash].contentType == INDEX_TYPE
    ensures Spans(nodes, hash, level, mediaType, content) ==> ReadNode(nodes, hash, level, mediaType) == Ok(content)
    decreases level.None?, Depth(level), 0, 0
  {
    hide ReadNodes, OpenIndex, SpansAll;
    var node := nodes[hash];
    if Spans(nodes, hash, level, mediaType, content) {
      var index: Index, parts: seq<bytes> :|
        IsIndex(node, index) && FitsIn(index, level, mediaType)
        && SpansAll(nodes, node.refs, index.level, mediaType, parts) && content == Flatten(parts);
      OpensIndex(node, level, mediaType, index);
      ReadsParts(nodes, node.refs, index.level, mediaType, parts);
    }
  }

  lemma {:induction false} PartsRead(nodes: NodeStore, refs: seq<Hash>, above: nat, mediaType: bytes, content: bytes)
    returns (parts: seq<bytes>)
    requires ReadNodes(nodes, refs, above - 1, mediaType) == Ok(content)
    ensures SpansAll(nodes, refs, above, mediaType, parts) && content == Flatten(parts)
    decreases false, above, 1, |refs|
  {
    hide ReadNode, Spans;
    if refs == [] {
      parts := [];
    } else {
      var first := ReadNode(nodes, refs[0], Some(above - 1), mediaType).value;
      var rest := ReadNodes(nodes, refs[1..], above - 1, mediaType).value;
      ReadsWhatSpans(nodes, refs[0], Some(above - 1), mediaType, first);
      var more := PartsRead(nodes, refs[1..], above, mediaType, rest);
      parts := [first] + more;
      assert parts[1..] == more;
      forall i | 0 <= i < |refs|
        ensures Spans(nodes, refs[i], Some(above - 1), mediaType, parts[i])
      {
        if i > 0 {
          assert refs[1..][i - 1] == refs[i] && more[i - 1] == parts[i];
        }
      }
    }
  }

  lemma {:induction false} ReadsParts(nodes: NodeStore, refs: seq<Hash>, above: nat, mediaType: bytes, parts: seq<bytes>)
    requires SpansAll(nodes, refs, above, mediaType, parts)
    ensures ReadNodes(nodes, refs, above - 1, mediaType) == Ok(Flatten(parts))
    decreases false, above, 1, |refs|
  {
    hide ReadNode, Spans;
    if refs != [] {
      ReadsWhatSpans(nodes, refs[0], Some(above - 1), mediaType, parts[0]);
      assert SpansAll(nodes, refs[1..], above, mediaType, parts[1..]) by {
        forall i | 0 <= i < |refs[1..]|
          ensures Spans(nodes, refs[1..][i], Some(above - 1), mediaType, parts[1..][i])
        {
          assert refs[1..][i] == refs[i + 1] && parts[1..][i] == parts[i + 1];
        }
      }
      ReadsParts(nodes, refs[1..], above, mediaType, parts[1..]);
    }
  }

  // ----- ranges -----

  // Where child `i` begins.
  ghost function Start(sizes: seq<int>, i: nat): int
    requires i <= |sizes|
  {
    Total(sizes[..i])
  }

  /** Every node the range touches is there, and spells its part of the range. */
  ghost predicate SpansRange(
    nodes: NodeStore, hash: Hash, offset: nat, length: nat, level: Option<int>, mediaType: bytes, content: bytes)
    decreases level.None?, Depth(level), 0
  {
    && hash in nodes
    && if nodes[hash].contentType != INDEX_TYPE
       then
         && IsLeaf(nodes[hash], level)
         && (length > 0 ==> offset < |nodes[hash].content|)
         && content == if length == 0 then []
                       else nodes[hash].content[offset..Min(offset + length, |nodes[hash].content|)]
       else exists index: Index, parts: seq<bytes> ::
              && IsIndex(nodes[hash], index) && FitsIn(index, level, mediaType)
              && SpansFrom(nodes, nodes[hash].refs, index.children, 0, offset, offset + length, index.level, mediaType, parts)
              && content == Flatten(parts)
  }

  // The children from `i` on, each with its part of the range.
  ghost predicate SpansFrom(
    nodes: NodeStore, refs: seq<Hash>, sizes: seq<int>, i: nat, offset: nat, end: nat, above: nat, mediaType: bytes,
    parts: seq<bytes>)
    requires |refs| == |sizes|
    decreases false, above, 2
  {
    && i <= |refs| && |parts| == |refs| - i
    && forall k :: i <= k < |refs| ==>
         SpansPart(nodes, refs[k], Start(sizes, k), Start(sizes, k + 1), offset, end, above, mediaType, parts[k - i])
  }

  ghost predicate SpansPart(
    nodes: NodeStore, hash: Hash, start: int, stop: int, offset: nat, end: nat, above: nat, mediaType: bytes, part: bytes)
    decreases false, above, 1
  {
    var from, to := Max(offset, start), Min(end, stop);
    if from < to
    then start >= 0 && SpansRange(nodes, hash, from - start, to - from, Some(above - 1), mediaType, part)
    else part == []
  }

  lemma NextStart(sizes: seq<int>, i: nat)
    requires i < |sizes|
    ensures Start(sizes, i + 1) == Start(sizes, i) + sizes[i]
  {
    assert sizes[..i + 1][..i] == sizes[..i];
  }

  lemma {:induction false} StartsAscend(sizes: seq<int>, i: nat, k: nat)
    requires AllPositive(sizes) && i <= k <= |sizes|
    ensures 0 <= Start(sizes, i) <= Start(sizes, k)
    decreases k
  {
    if k > 0 {
      NextStart(sizes, k - 1);
      StartsAscend(sizes, if i < k then i else k - 1, k - 1);
    }
  }

  /** A ranged read answers bytes exactly when the nodes it touches span them. */
  lemma {:induction false} ReadsWhatSpansRange(
    nodes: NodeStore, hash: Hash, offset: nat, length: nat, level: Option<int>, mediaType: bytes, content: bytes)
    ensures ReadRangeNode(nodes, hash, offset, length, level, mediaType) == Ok(content)
            <==> SpansRange(nodes, hash, offset, length, level, mediaType, content)
    ensures hash !in nodes ==> ReadRangeNode(nodes, hash, offset, length, level, mediaType) == Err(NodeNotFound)
    decreases level.None?, Depth(level), 0
  {
    hide ReadRangeNodes, OpenIndex, SpansFrom, IsIndex, ValidIndex;
    if hash in nodes && nodes[hash].contentType == INDEX_TYPE {
      IndexReadsRange(nodes, hash, offset, length, level, mediaType, content);
      IndexSpansRange(nodes, hash, offset, length, level, mediaType, content);
    }
  }

  lemma IndexReadsRange(
    nodes: NodeStore, hash: Hash, offset: nat, length: nat, level: Option<int>, mediaType: bytes, content: bytes)
    requires hash in nodes && nodes[hash].contentType == INDEX_TYPE
    ensures ReadRangeNode(nodes, hash, offset, length, level, mediaType) == Ok(content)
            ==> SpansRange(nodes, hash, offset, length, level, mediaType, content)
    decreases level.None?, Depth(level), 0, 0
  {
    hide ReadRangeNodes, OpenIndex, SpansFrom;
    var node := nodes[hash];
    if ReadRangeNode(nodes, hash, offset, length, level, mediaType) == Ok(content) {
      var index := OpenIndex(node, level, mediaType).value;
      OpensIndex(node, level, mediaType, index);
      assert node.refs[0..] == node.refs && index.children[0..] == index.children && Start(index.children, 0) == 0;
      var parts := RangePartsRead(nodes, node.refs, index.children, 0, offset, offset + length, index.level, mediaType, content);
    }
  }

  lemma IndexSpansRange(
    nodes: NodeStore, hash: Hash, offset: nat, length: nat, level: Option<int>, mediaType: bytes, content: bytes)
    requires hash in nodes && nodes[hash].contentType == INDEX_TYPE
    ensures SpansRange(nodes, hash, offset, length, level, mediaType, content)
            ==> ReadRangeNode(nodes, hash, offset, length, level, mediaType) == Ok(content)
    decreases level.None?, Depth(level), 0, 0
  {
    hide ReadRangeNodes, OpenIndex, SpansFrom;
    var node := nodes[hash];
    if SpansRange(nodes, hash, offset, length, level, mediaType, content) {
      var index: Index, parts: seq<bytes> :|
        IsIndex(node, index) && FitsIn(index, level, mediaType)
        && SpansFrom(nodes, node.refs, index.children, 0, offset, offset + length, index.level, mediaType, parts)
        && content == Flatten(parts);
      OpensIndex(node, level, mediaType, index);
      assert node.refs[0..] == node.refs && index.children[0..] == index.children && Start(index.children, 0) == 0;
      ReadsRangeParts(nodes, node.refs, index.children, 0, offset, offset + length, index.level, mediaType, parts);
    }
  }

  // What one turn of the loop over the children answers.
  lemma RangeTurn(
    nodes: NodeStore, refs: seq<Hash>, sizes: seq<int>, i: nat, offset: nat, end: nat, above: nat, mediaType: bytes)
    requires |refs| == |sizes| && i < |refs| && AllPositive(sizes)
    ensures 0 <= Start(sizes, i) && Start(sizes, i + 1) == Start(sizes, i) + sizes[i]
    ensures refs[i..][0] == refs[i] && refs[i..][1..] == refs[i + 1..]
    ensures sizes[i..][0] == sizes[i] && sizes[i..][1..] == sizes[i + 1..] && AllPositive(sizes[i..])
  {
    StartsAscend(sizes, i, i);
    NextStart(sizes, i);
  }

  // Behind the end of the range nothing is touched.
  lemma {:induction false} NothingBehind(
    nodes: NodeStore, refs: seq<Hash>, sizes: seq<int>, i: nat, offset: nat, end: nat, above: nat, mediaType: bytes,
    parts: seq<bytes>)
    requires |refs| == |sizes| && i <= |refs| && AllPositive(sizes) && Start(sizes, i) >= end
    ensures SpansFrom(nodes, refs, sizes, i, offset, end, above, mediaType, parts) ==> Flatten(parts) == []
    ensures SpansFrom(nodes, refs, sizes, i, offset, end, above, mediaType, seq(|refs| - i, k => []))
    ensures Flatten(seq(|refs| - i, k => [])) == []
  {
    hide SpansRange;
    forall k | i <= k < |refs|
      ensures Start(sizes, k) >= end
    {
      StartsAscend(sizes, i, k);
    }
    AllEmpty(seq(|refs| - i, k => []));
    if SpansFrom(nodes, refs, sizes, i, offset, end, above, mediaType, parts) {
      forall k | 0 <= k < |parts|
        ensures parts[k] == []
      {
        assert SpansPart(nodes, refs[k + i], Start(sizes, k + i), Start(sizes, k + i + 1), offset, end, above, mediaType, parts[k + i - i]);
      }
      AllEmpty(parts);
    }
  }

  lemma {:induction false} AllEmpty(parts: seq<bytes>)
    requires forall k :: 0 <= k < |parts| ==> parts[k] == []
    ensures Flatten(parts) == []
  {
    if parts != [] {
      AllEmpty(parts[1..]);
    }
  }

  // What the first child and the others answered.
  lemma TurnAnswered(
    nodes: NodeStore, refs: seq<Hash>, sizes: seq<int>, i: nat, offset: nat, end: nat, above: nat, mediaType: bytes,
    content: bytes)
    returns (first: bytes, rest: bytes)
    requires |refs| == |sizes| && i < |refs| && AllPositive(sizes) && Start(sizes, i) >= 0
    requires ReadRangeNodes(nodes, refs[i..], sizes[i..], Start(sizes, i), offset, end, above - 1, mediaType) == Ok(content)
    ensures var start, stop := Start(sizes, i), Start(sizes, i + 1);
            var from, to := Max(offset, start), Min(end, stop);
            && (if from < to
                then ReadRangeNode(nodes, refs[i], from - start, to - from, Some(above - 1), mediaType) == Ok(first)
                else first == [])
            && (if stop >= end then rest == []
                else stop >= 0
                     && ReadRangeNodes(nodes, refs[i + 1..], sizes[i + 1..], stop, offset, end, above - 1, mediaType) == Ok(rest))
    ensures content == first + rest
  {
    hide ReadRangeNode;
    RangeTurn(nodes, refs, sizes, i, offset, end, above, mediaType);
    var start, stop := Start(sizes, i), Start(sizes, i + 1);
    var from, to := Max(offset, start), Min(end, stop);
    first, rest := [], [];
    if from < to {
      first := ReadRangeNode(nodes, refs[i], from - start, to - from, Some(above - 1), mediaType).value;
    }
    if stop < end {
      rest := ReadRangeNodes(nodes, refs[i + 1..], sizes[i + 1..], stop, offset, end, above - 1, mediaType).value;
    }
  }

  // The first child's part of a read that answered.
  lemma PartRead(
    nodes: NodeStore, hash: Hash, start: int, stop: int, offset: nat, end: nat, above: nat, mediaType: bytes, first: bytes)
    requires start >= 0
    requires var from, to := Max(offset, start), Min(end, stop);
             if from < to
             then ReadRangeNode(nodes, hash, from - start, to - from, Some(above - 1), mediaType) == Ok(first)
             else first == []
    ensures SpansPart(nodes, hash, start, stop, offset, end, above, mediaType, first)
    decreases false, above, 1, 0
  {
    hide ReadRangeNode, SpansRange;
    var from, to := Max(offset, start), Min(end, stop);
    if from < to {
      ReadsWhatSpansRange(nodes, hash, from - start, to - from, Some(above - 1), mediaType, first);
    }
  }

  lemma {:induction false} RangePartsRead(
    nodes: NodeStore, refs: seq<Hash>, sizes: seq<int>, i: nat, offset: nat, end: nat, above: nat, mediaType: bytes,
    content: bytes)
    returns (parts: seq<bytes>)
    requires |refs| == |sizes| && i <= |refs| && AllPositive(sizes) && Start(sizes, i) >= 0
    requires ReadRangeNodes(nodes, refs[i..], sizes[i..], Start(sizes, i), offset, end, above - 1, mediaType) == Ok(content)
    ensures SpansFrom(nodes, refs, sizes, i, offset, end, above, mediaType, parts) && content == Flatten(parts)
    decreases false, above, 1, |refs| - i
  {
    hide ReadRangeNode, SpansPart, Start;
    if i == |refs| {
      parts := [];
    } else {
      parts := RangePartsFrom(nodes, refs, sizes, i, offset, end, above, mediaType, content);
    }
  }

  lemma RangePartsFrom(
    nodes: NodeStore, refs: seq<Hash>, sizes: seq<int>, i: nat, offset: nat, end: nat, above: nat, mediaType: bytes,
    content: bytes)
    returns (parts: seq<bytes>)
    requires |refs| == |sizes| && i < |refs| && AllPositive(sizes) && Start(sizes, i) >= 0
    requires ReadRangeNodes(nodes, refs[i..], sizes[i..], Start(sizes, i), offset, end, above - 1, mediaType) == Ok(content)
    ensures SpansFrom(nodes, refs, sizes, i, offset, end, above, mediaType, parts) && content == Flatten(parts)
    decreases false, above, 1, |refs| - i, 0
  {
    hide ReadRangeNode, ReadRangeNodes, SpansPart, SpansFrom, Start, Flatten, AllPositive;
    var first, rest := TurnAnswered(nodes, refs, sizes, i, offset, end, above, mediaType, content);
    PartRead(nodes, refs[i], Start(sizes, i), Start(sizes, i + 1), offset, end, above, mediaType, first);
    var more: seq<bytes>;
    if Start(sizes, i + 1) >= end {
      more := seq(|refs| - (i + 1), k => []);
      NothingBehind(nodes, refs, sizes, i + 1, offset, end, above, mediaType, more);
    } else {
      more := RangePartsRead(nodes, refs, sizes, i + 1, offset, end, above, mediaType, rest);
    }
    parts := [first] + more;
    FirstPart(nodes, refs, sizes, i, offset, end, above, mediaType, first, more);
  }

  lemma FirstPart(
    nodes: NodeStore, refs: seq<Hash>, sizes: seq<int>, i: nat, offset: nat, end: nat, above: nat, mediaType: bytes,
    first: bytes, more: seq<bytes>)
    requires |refs| == |sizes| && i < |refs|
    ensures SpansFrom(nodes, refs, sizes, i, offset, end, above, mediaType, [first] + more)
            <==> SpansPart(nodes, refs[i], Start(sizes, i), Start(sizes, i + 1), offset, end, above, mediaType, first)
                 && SpansFrom(nodes, refs, sizes, i + 1, offset, end, above, mediaType, more)
    ensures Flatten([first] + more) == first + Flatten(more)
  {
    hide SpansPart;
    var parts := [first] + more;
    assert parts[1..] == more;
    if SpansFrom(nodes, refs, sizes, i, offset, end, above, mediaType, parts) {
      assert parts[i - i] == first;
      forall k | i + 1 <= k < |refs|
        ensures SpansPart(nodes, refs[k], Start(sizes, k), Start(sizes, k + 1), offset, end, above, mediaType, more[k - (i + 1)])
      {
        assert parts[k - i] == more[k - (i + 1)];
      }
    }
  }

  lemma {:induction false} ReadsRangeParts(
    nodes: NodeStore, refs: seq<Hash>, sizes: seq<int>, i: nat, offset: nat, end: nat, above: nat, mediaType: bytes,
    parts: seq<bytes>)
    requires |refs| == |sizes| && AllPositive(sizes) && i <= |refs| && Start(sizes, i) >= 0
    requires SpansFrom(nodes, refs, sizes, i, offset, end, above, mediaType, parts)
    ensures ReadRangeNodes(nodes, refs[i..], sizes[i..], Start(sizes, i), offset, end, above - 1, mediaType)
            == Ok(Flatten(parts))
    decreases false, above, 1, |refs| - i
  {
    hide ReadRangeNode, SpansRange;
    if i < |refs| {
      RangeTurn(nodes, refs, sizes, i, offset, end, above, mediaType);
      var first, more := parts[0], parts[1..];
      assert parts == [first] + more;
      FirstPart(nodes, refs, sizes, i, offset, end, above, mediaType, first, more);
      var start, stop := Start(sizes, i), Start(sizes, i + 1);
      var from, to := Max(offset, start), Min(end, stop);
      if from < to {
        ReadsWhatSpansRange(nodes, refs[i], from - start, to - from, Some(above - 1), mediaType, first);
      }
      if stop >= end {
        NothingBehind(nodes, refs, sizes, i + 1, offset, end, above, mediaType, more);
        assert first + [] == first;
      } else {
        ReadsRangeParts(nodes, refs, sizes, i + 1, offset, end, above, mediaType, more);
      }
    }
  }

  // ----- a range is a slice of the whole -----

  // Every index says of its children how long what they span is.
  ghost predicate Truthful(nodes: NodeStore, hash: Hash, level: Option<int>, mediaType: bytes)
    decreases level.None?, Depth(level), 0
  {
    hash in nodes ==>
      forall index: Index :: IsIndex(nodes[hash], index) && FitsIn(index, level, mediaType) ==>
        TruthfulAll(nodes, nodes[hash].refs, index.children, index.level, mediaType)
  }

  ghost predicate TruthfulAll(nodes: NodeStore, refs: seq<Hash>, sizes: seq<int>, above: nat, mediaType: bytes)
    requires |refs| == |sizes|
    decreases false, above, 1
  {
    forall i :: 0 <= i < |refs| ==>
      && Truthful(nodes, refs[i], Some(above - 1), mediaType)
      && forall part :: Spans(nodes, refs[i], Some(above - 1), mediaType, part) ==> |part| == sizes[i]
  }

  // What of content beginning at `start` lies in the range.
  ghost function Cut(content: bytes, start: nat, offset: nat, end: nat): bytes {
    var from, to := Max(offset, start), Min(end, start + |content|);
    if from < to then content[from - start..to - start] else []
  }

  lemma CutsLeft(a: bytes, b: bytes, start: nat, offset: nat, end: nat)
    requires end <= start + |a|
    ensures Cut(a + b, start, offset, end) == Cut(a, start, offset, end)
  {
    var from := Max(offset, start);
    if from < end {
      assert (a + b)[from - start..end - start] == a[from - start..end - start];
    }
  }

  lemma CutsRight(a: bytes, b: bytes, start: nat, offset: nat, end: nat)
    requires start + |a| <= offset
    ensures Cut(a + b, start, offset, end) == Cut(b, start + |a|, offset, end)
  {
    var i, to := offset - start, Min(end, start + |a| + |b|);
    if offset < to {
      assert (a + b)[i..to - start] == b[i - |a|..to - start - |a|];
    }
  }

  lemma CutsAcross(a: bytes, b: bytes, start: nat, offset: nat, end: nat)
    requires offset < start + |a| < end
    ensures Cut(a + b, start, offset, end) == Cut(a, start, offset, end) + Cut(b, start + |a|, offset, end)
  {
    var from, to := Max(offset, start) - start, Min(end, start + |a| + |b|) - start;
    assert (a + b)[from..to] == a[from..|a|] + b[0..to - |a|];
    assert Cut(a, start, offset, end) == a[from..|a|];
    assert Cut(b, start + |a|, offset, end) == b[0..to - |a|];
  }

  lemma CutsNothing(a: bytes, start: nat, offset: nat, end: nat)
    requires end <= start || start + |a| <= offset
    ensures Cut(a, start, offset, end) == []
  {
  }

  lemma CutConcat(a: bytes, b: bytes, start: nat, offset: nat, end: nat)
    ensures Cut(a + b, start, offset, end) == Cut(a, start, offset, end) + Cut(b, start + |a|, offset, end)
  {
    hide Cut;
    if end <= start + |a| {
      CutsLeft(a, b, start, offset, end);
      CutsNothing(b, start + |a|, offset, end);
    } else if start + |a| <= offset {
      CutsRight(a, b, start, offset, end);
      CutsNothing(a, start, offset, end);
    } else {
      CutsAcross(a, b, start, offset, end);
    }
  }

  lemma OnlyOneContent(nodes: NodeStore, hash: Hash, level: Option<int>, mediaType: bytes, a: bytes, b: bytes)
    requires Spans(nodes, hash, level, mediaType, a) && Spans(nodes, hash, level, mediaType, b)
    ensures a == b
  {
    hide ReadNode, Spans;
    ReadsWhatSpans(nodes, hash, level, mediaType, a);
    ReadsWhatSpans(nodes, hash, level, mediaType, b);
  }

  /** Under truthful indexes a range that is answered is that slice of the whole. */
  lemma {:induction false} RangeIsSlice(
    nodes: NodeStore, hash: Hash, offset: nat, length: nat, level: Option<int>, mediaType: bytes, whole: bytes, part: bytes)
    requires Spans(nodes, hash, level, mediaType, whole) && Truthful(nodes, hash, level, mediaType)
    requires SpansRange(nodes, hash, offset, length, level, mediaType, part)
    requires length > 0 && offset + length <= |whole|
    ensures part == whole[offset..offset + length]
    decreases level.None?, Depth(level), 0
  {
    hide SpansAll, SpansFrom, TruthfulAll, ValidIndex;
    if nodes[hash].contentType == INDEX_TYPE {
      IndexRangeIsSlice(nodes, hash, offset, length, level, mediaType, whole, part);
    }
  }

  lemma IndexRangeIsSlice(
    nodes: NodeStore, hash: Hash, offset: nat, length: nat, level: Option<int>, mediaType: bytes, whole: bytes, part: bytes)
    requires hash in nodes && nodes[hash].contentType == INDEX_TYPE
    requires Spans(nodes, hash, level, mediaType, whole) && Truthful(nodes, hash, level, mediaType)
    requires SpansRange(nodes, hash, offset, length, level, mediaType, part)
    requires length > 0 && offset + length <= |whole|
    ensures part == whole[offset..offset + length]
    decreases level.None?, Depth(level), 0, 0
  {
    hide SpansAll, SpansFrom, TruthfulAll, ValidIndex, Flatten, Start;
    var node := nodes[hash];
    var index, parts := PartsOf(nodes, hash, level, mediaType, whole);
    var again, cuts := CutsOf(nodes, hash, offset, length, level, mediaType, part);
    OnlyOneIndex(node, index, again);
    assert TruthfulAll(nodes, node.refs, index.children, index.level, mediaType);
    assert parts[0..] == parts;
    FirstStart(node, index);
    PartsAreCuts(nodes, node.refs, index.children, 0, offset, offset + length, index.level, mediaType, parts, cuts);
  }

  lemma FirstStart(node: Node, index: Index)
    requires IsIndex(node, index)
    ensures Start(index.children, 0) == 0 && AllPositive(index.children)
  {
  }

  lemma PartsOf(nodes: NodeStore, hash: Hash, level: Option<int>, mediaType: bytes, whole: bytes)
    returns (index: Index, parts: seq<bytes>)
    requires hash in nodes && nodes[hash].contentType == INDEX_TYPE && Spans(nodes, hash, level, mediaType, whole)
    ensures IsIndex(nodes[hash], index) && index.level >= 0 && FitsIn(index, level, mediaType)
    ensures SpansAll(nodes, nodes[hash].refs, index.level, mediaType, parts) && whole == Flatten(parts)
  {
    hide SpansAll;
    index, parts :|
      IsIndex(nodes[hash], index) && FitsIn(index, level, mediaType)
      && SpansAll(nodes, nodes[hash].refs, index.level, mediaType, parts) && whole == Flatten(parts);
  }

  lemma CutsOf(
    nodes: NodeStore, hash: Hash, offset: nat, length: nat, level: Option<int>, mediaType: bytes, part: bytes)
    returns (index: Index, cuts: seq<bytes>)
    requires hash in nodes && nodes[hash].contentType == INDEX_TYPE
    requires SpansRange(nodes, hash, offset, length, level, mediaType, part)
    ensures IsIndex(nodes[hash], index) && index.level >= 0 && FitsIn(index, level, mediaType)
    ensures SpansFrom(nodes, nodes[hash].refs, index.children, 0, offset, offset + length, index.level, mediaType, cuts)
    ensures part == Flatten(cuts)
  {
    hide SpansFrom;
    index, cuts :|
      IsIndex(nodes[hash], index) && FitsIn(index, level, mediaType)
      && SpansFrom(nodes, nodes[hash].refs, index.children, 0, offset, offset + length, index.level, mediaType, cuts)
      && part == Flatten(cuts);
  }

  lemma {:induction false} PartsAreCuts(
    nodes: NodeStore, refs: seq<Hash>, sizes: seq<int>, i: nat, offset: nat, end: nat, above: nat, mediaType: bytes,
    parts: seq<bytes>, cuts: seq<bytes>)
    requires |refs| == |sizes| && i <= |refs| && AllPositive(sizes) && Start(sizes, i) >= 0
    requires SpansAll(nodes, refs, above, mediaType, parts) && TruthfulAll(nodes, refs, sizes, above, mediaType)
    requires SpansFrom(nodes, refs, sizes, i, offset, end, above, mediaType, cuts)
    ensures Flatten(cuts) == Cut(Flatten(parts[i..]), Start(sizes, i), offset, end)
    decreases false, above, 1, |refs| - i
  {
    hide Spans, SpansRange, SpansPart, Truthful, Cut, Start;
    if i == |refs| {
      NothingToCut(Start(sizes, i), offset, end);
    } else {
      NextStart(sizes, i);
      CutsContinue(nodes, refs, sizes, i, offset, end, above, mediaType, parts, cuts);
    }
  }

  lemma CutsContinue(
    nodes: NodeStore, refs: seq<Hash>, sizes: seq<int>, i: nat, offset: nat, end: nat, above: nat, mediaType: bytes,
    parts: seq<bytes>, cuts: seq<bytes>)
    requires |refs| == |sizes| && i < |refs| && AllPositive(sizes)
    requires Start(sizes, i) >= 0 && Start(sizes, i + 1) == Start(sizes, i) + sizes[i] && sizes[i] > 0
    requires SpansAll(nodes, refs, above, mediaType, parts) && TruthfulAll(nodes, refs, sizes, above, mediaType)
    requires SpansFrom(nodes, refs, sizes, i, offset, end, above, mediaType, cuts) && cuts != []
    ensures Flatten(cuts) == Cut(Flatten(parts[i..]), Start(sizes, i), offset, end)
    decreases false, above, 1, |refs| - i, 0
  {
    hide Spans, SpansRange, SpansPart, SpansFrom, Truthful, Cut, Start, Flatten, AllPositive;
    var first, more := cuts[0], cuts[1..];
    assert cuts == [first] + more && parts[i..] == [parts[i]] + parts[i + 1..];
    FirstPart(nodes, refs, sizes, i, offset, end, above, mediaType, first, more);
    PartsAreCuts(nodes, refs, sizes, i + 1, offset, end, above, mediaType, parts, more);
    PartIsCut(nodes, refs[i], Start(sizes, i), sizes[i], offset, end, above, mediaType, parts[i], first);
    CutConcat(parts[i], Flatten(parts[i + 1..]), Start(sizes, i), offset, end);
    FlattenFirst(parts[i], parts[i + 1..]);
  }

  lemma FlattenFirst(first: bytes, more: seq<bytes>)
    ensures Flatten([first] + more) == first + Flatten(more)
  {
    assert ([first] + more)[1..] == more;
  }

  lemma NothingToCut(start: nat, offset: nat, end: nat)
    ensures Cut([], start, offset, end) == []
  {
  }

  lemma PartIsCut(
    nodes: NodeStore, hash: Hash, start: nat, size: int, offset: nat, end: nat, above: nat, mediaType: bytes, part: bytes,
    cut: bytes)
    requires Spans(nodes, hash, Some(above - 1), mediaType, part) && |part| == size
    requires Truthful(nodes, hash, Some(above - 1), mediaType)
    requires SpansPart(nodes, hash, start, start + size, offset, end, above, mediaType, cut)
    ensures cut == Cut(part, start, offset, end)
    decreases false, above, 1, 0
  {
    hide Spans, SpansRange, Truthful;
    var from, to := Max(offset, start), Min(end, start + size);
    if from < to {
      RangeIsSlice(nodes, hash, from - start, to - from, Some(above - 1), mediaType, part, cut);
    }
  }

  // ----- opening and reading a blob -----

  // What a root says of its blob.
  ghost predicate Describes(nodes: NodeStore, hash: Hash, size: int, mediaType: bytes) {
    && hash in nodes
    && if nodes[hash].contentType != INDEX_TYPE
       then nodes[hash].refs == [] && size == |nodes[hash].content| && mediaType == nodes[hash].contentType
       else exists index: Index :: IsIndex(nodes[hash], index) && size == index.size && mediaType == index.mediaType
  }

  /** Opening answers exactly what the root says; an unknown hash is not found, and a plain node with references no root. */
  lemma ResolvesWhatIsDescribed(nodes: NodeStore, hash: Hash, ref: BlobRef)
    ensures ResolveBlobRef(nodes, hash) == Ok(ref) <==> ref.hash == hash && Describes(nodes, hash, ref.size, ref.contentType)
    ensures ResolveBlobRef(nodes, hash) == Err(NodeNotFound) <==> hash !in nodes
    ensures ResolveBlobRef(nodes, hash) == Err(NotABlobRoot)
            <==> hash in nodes && nodes[hash].contentType != INDEX_TYPE && nodes[hash].refs != []
  {
    hide ValidIndex, Wire;
    if hash in nodes && nodes[hash].contentType == INDEX_TYPE {
      var node := nodes[hash];
      if ResolveBlobRef(nodes, hash) == Ok(ref) {
        var index := ReadIndex(node.content).value;
        DecodesIffEncoded(node.content, index);
        assert IsIndex(node, index);
      }
      if Describes(nodes, hash, ref.size, ref.contentType) {
        var index: Index :| IsIndex(node, index) && ref.size == index.size && ref.contentType == index.mediaType;
        DecodesIffEncoded(node.content, index);
      }
    }
  }

  /**
   * Reading a blob whole answers bytes exactly when its root is there and, with everything it reaches,
   * spells them; so a missing or ill-typed node anywhere in it is an error, never a shorter answer.
   */
  lemma BlobReadsWhatSpans(nodes: NodeStore, hash: Hash, content: bytes)
    ensures ReadBlob(nodes, hash, None) == Ok(content)
            <==> exists size, mediaType :: Describes(nodes, hash, size, mediaType) && Spans(nodes, hash, None, mediaType, content)
  {
    hide ReadNode, ResolveBlobRef, Spans, Describes;
    if ReadBlob(nodes, hash, None) == Ok(content) {
      var ref := ResolveBlobRef(nodes, hash).value;
      ResolvesWhatIsDescribed(nodes, hash, ref);
      ReadsWhatSpans(nodes, hash, None, ref.contentType, content);
    }
    if size, mediaType :| Describes(nodes, hash, size, mediaType) && Spans(nodes, hash, None, mediaType, content) {
      SizeIsNat(nodes, hash, size, mediaType);
      ResolvesWhatIsDescribed(nodes, hash, BlobRef(hash, size, mediaType));
      ReadsWhatSpans(nodes, hash, None, mediaType, content);
    }
  }

  lemma SizeIsNat(nodes: NodeStore, hash: Hash, size: int, mediaType: bytes)
    requires Describes(nodes, hash, size, mediaType)
    ensures size >= 0
  {
  }

  // How much of the range lies in a blob of this size.
  ghost function Within(range: Range, size: int): int {
    if range.length.None? || range.length.value > size - range.offset then size - range.offset else range.length.value
  }

  /** Reading a range answers bytes exactly when it begins in the blob and the nodes it touches spell them. */
  lemma BlobRangeReadsWhatSpans(nodes: NodeStore, hash: Hash, range: Range, content: bytes)
    ensures ReadBlob(nodes, hash, Some(range)) == Ok(content)
            <==> exists size, mediaType :: Describes(nodes, hash, size, mediaType) && SpansBlobRange(nodes, hash, range, size, mediaType, content)
  {
    hide ReadRangeNode, ResolveBlobRef, SpansRange, Describes;
    if ReadBlob(nodes, hash, Some(range)) == Ok(content) {
      var ref := ResolveBlobRef(nodes, hash).value;
      ResolvesWhatIsDescribed(nodes, hash, ref);
      if Within(range, ref.size) > 0 {
        ReadsWhatSpansRange(nodes, hash, range.offset, Within(range, ref.size), None, ref.contentType, content);
      }
      assert SpansBlobRange(nodes, hash, range, ref.size, ref.contentType, content);
    }
    if size, mediaType :| Describes(nodes, hash, size, mediaType) && SpansBlobRange(nodes, hash, range, size, mediaType, content) {
      SizeIsNat(nodes, hash, size, mediaType);
      ResolvesWhatIsDescribed(nodes, hash, BlobRef(hash, size, mediaType));
      if Within(range, size) > 0 {
        ReadsWhatSpansRange(nodes, hash, range.offset, Within(range, size), None, mediaType, content);
      }
    }
  }

  ghost predicate SpansBlobRange(
    nodes: NodeStore, hash: Hash, range: Range, size: int, mediaType: bytes, content: bytes)
  {
    && 0 <= range.offset <= 9007199254740991 && range.offset <= size
    && (range.length.Some? ==> 0 <= range.length.value <= 9007199254740991)
    && if Within(range, size) == 0 then content == []
       else Within(range, size) > 0 && SpansRange(nodes, hash, range.offset, Within(range, size), None, mediaType, content)
  }
}
