// The shape of a stored blob: equal-sized chunks under a tree of bounded fan-out
// in which every leaf is equally deep. The writer builds it with a counter in
// base fan-out (one open group per level); here the same tree is also built
// level by level, and the two agree.
module BlobTree {
  import opened Prelude
  import opened Codec
  import opened BlobIndex

  datatype Tree = Leaf(data: bytes) | Branch(children: seq<Tree>)

  // ----- what a tree stands for -----

  // The content, in source order.
  function Bytes(t: Tree): bytes {
    match t
    case Leaf(data) => data
    case Branch(children) => Flatten(seq(|children|, i requires 0 <= i < |children| => Bytes(children[i])))
  }

  function BytesEach(ts: seq<Tree>): (r: seq<bytes>)
    ensures |r| == |ts|
  {
    seq(|ts|, i requires 0 <= i < |ts| => Bytes(ts[i]))
  }

  function BytesAll(ts: seq<Tree>): bytes {
    Flatten(BytesEach(ts))
  }

  function Sizes(ts: seq<Tree>): (r: seq<int>)
    ensures |r| == |ts|
  {
    seq(|ts|, i requires 0 <= i < |ts| => |Bytes(ts[i])|)
  }

  function Level(t: Tree): int {
    match t
    case Leaf(_) => -1
    case Branch(children) => if children == [] then 0 else Level(children[0]) + 1
  }

  lemma BranchBytes(ts: seq<Tree>)
    ensures Bytes(Branch(ts)) == BytesAll(ts)
  {
    assert seq(|ts|, i requires 0 <= i < |ts| => Bytes(Branch(ts).children[i])) == BytesEach(ts);
  }

  lemma BytesAllConcat(a: seq<Tree>, b: seq<Tree>)
    ensures BytesAll(a + b) == BytesAll(a) + BytesAll(b)
  {
    assert BytesEach(a + b) == BytesEach(a) + BytesEach(b);
    FlattenConcat(BytesEach(a), BytesEach(b));
  }

  lemma BytesAllOne(t: Tree)
    ensures BytesAll([t]) == Bytes(t)
  {
    assert BytesEach([t]) == [Bytes(t)];
    assert Flatten([Bytes(t)]) == Bytes(t) + Flatten([]);
  }

  lemma {:induction false} SizesAddUp(ts: seq<Tree>)
    ensures Total(Sizes(ts)) == |BytesAll(ts)|
  {
    if ts != [] {
      var front, last := ts[..|ts| - 1], ts[|ts| - 1];
      assert ts == front + [last];
      assert Sizes(ts)[..|ts| - 1] == Sizes(front);
      SizesAddUp(front);
      BytesAllConcat(front, [last]);
      BytesAllOne(last);
    }
  }

  // Uniform depth, bounded fan-out, no empty leaf, and indexes that can be written.
  ghost predicate Sound(mediaType: bytes, fanout: nat, t: Tree, level: int) {
    match t
    case Leaf(data) => level == -1 && 1 <= |data| <= CHUNK_BYTES
    case Branch(children) =>
      && level >= 0 && 1 <= |children| <= fanout
      && (forall i :: 0 <= i < |children| ==> Sound(mediaType, fanout, children[i], level - 1))
      && ValidIndex(Index(1, level, |Bytes(t)|, mediaType, Sizes(children)))
  }

  ghost predicate AllSound(mediaType: bytes, fanout: nat, ts: seq<Tree>, level: int) {
    forall i :: 0 <= i < |ts| ==> Sound(mediaType, fanout, ts[i], level)
  }

  lemma SoundLevel(mediaType: bytes, fanout: nat, t: Tree, level: int)
    requires Sound(mediaType, fanout, t, level)
    ensures Level(t) == level && level >= -1 && |Bytes(t)| > 0
  {
    if t.Branch? {
      SoundLevel(mediaType, fanout, t.children[0], level - 1);
    }
  }

  // Each member contributes at least one byte.
  lemma {:induction false} SoundSizes(mediaType: bytes, fanout: nat, ts: seq<Tree>, level: int)
    requires AllSound(mediaType, fanout, ts, level)
    ensures |ts| <= |BytesAll(ts)|
    ensures forall i :: 0 <= i < |ts| ==> 0 < Sizes(ts)[i]
  {
    forall i | 0 <= i < |ts|
      ensures 0 < Sizes(ts)[i]
    {
      SoundLevel(mediaType, fanout, ts[i], level);
    }
    SizesAddUp(ts);
    TotalOfPrefix(Sizes(ts), |ts|);
    assert Sizes(ts)[..|ts|] == Sizes(ts);
  }

  /** A group within the fan-out makes one sound branch exactly when its size and the media type can be written. */
  lemma SoundBranch(mediaType: bytes, fanout: nat, group: seq<Tree>, level: int)
    requires 1 <= |group| <= fanout <= FANOUT && AllSound(mediaType, fanout, group, level)
    requires level + 1 <= MAX_SAFE_INTEGER
    ensures Sound(mediaType, fanout, Branch(group), level + 1)
            <==> LegalMediaType(mediaType) && |BytesAll(group)| <= MAX_SAFE_INTEGER
  {
    SoundLevel(mediaType, fanout, group[0], level);
    SoundSizes(mediaType, fanout, group, level);
    SizesAddUp(group);
    BranchBytes(group);
  }

  // ----- grouping one level -----

  // The complete groups, as branches, and what is left over.
  function Full(ts: seq<Tree>, fanout: nat): (r: seq<Tree>)
    requires fanout >= 2
    ensures |r| * 2 <= |ts|
  {
    if |ts| < fanout then [] else [Branch(ts[..fanout])] + Full(ts[fanout..], fanout)
  }

  function Tail(ts: seq<Tree>, fanout: nat): (r: seq<Tree>)
    requires fanout >= 2
    ensures |r| < fanout
  {
    if |ts| < fanout then ts else Tail(ts[fanout..], fanout)
  }

  function LevelUp(ts: seq<Tree>, fanout: nat): (r: seq<Tree>)
    requires fanout >= 2
    ensures |ts| >= 2 ==> 1 <= |r| < |ts|
  {
    GroupCount(ts, fanout);
    Full(ts, fanout) + if Tail(ts, fanout) == [] then [] else [Branch(Tail(ts, fanout))]
  }

  lemma {:induction false} GroupCount(ts: seq<Tree>, fanout: nat)
    requires fanout >= 2
    ensures |ts| == fanout * |Full(ts, fanout)| + |Tail(ts, fanout)|
    ensures |ts| >= 2 ==> 1 <= |Full(ts, fanout)| + (if Tail(ts, fanout) == [] then 0 else 1) < |ts|
    decreases |ts|
  {
    if |ts| >= fanout {
      GroupCount(ts[fanout..], fanout);
      assert fanout * |Full(ts, fanout)| == fanout * |Full(ts[fanout..], fanout)| + fanout;
    }
  }

  /** The tree over these leaves: group level by level until one node is left. */
  function Build(ts: seq<Tree>, fanout: nat): Tree
    requires fanout >= 2 && ts != []
    decreases |ts|
  {
    if |ts| == 1 then ts[0] else Build(LevelUp(ts, fanout), fanout)
  }

  // The counter's digits: the open group of every level, lowest first.
  function Groups(ts: seq<Tree>, fanout: nat): seq<seq<Tree>>
    requires fanout >= 2
    decreases |ts|
  {
    if ts == [] then [] else [Tail(ts, fanout)] + Groups(Full(ts, fanout), fanout)
  }

  // ----- one more node -----

  /** Adding a node extends the open group, or completes it and carries one branch to the next level. */
  lemma {:induction false} Carry(ts: seq<Tree>, t: Tree, fanout: nat)
    requires fanout >= 2
    ensures var group := Tail(ts, fanout) + [t];
            if |group| == fanout
            then Tail(ts + [t], fanout) == [] && Full(ts + [t], fanout) == Full(ts, fanout) + [Branch(group)]
            else Tail(ts + [t], fanout) == group && Full(ts + [t], fanout) == Full(ts, fanout)
    decreases |ts|
  {
    var more := ts + [t];
    if |ts| >= fanout {
      assert more[fanout..] == ts[fanout..] + [t] && more[..fanout] == ts[..fanout];
      Carry(ts[fanout..], t, fanout);
    } else if |more| == fanout {
      assert more[..fanout] == more && more[fanout..] == [];
      assert Full([], fanout) == [];
    }
  }

  // ----- grouping keeps content and shape -----

  lemma {:induction false} GroupingKeepsBytes(ts: seq<Tree>, fanout: nat)
    requires fanout >= 2
    ensures BytesAll(ts) == BytesAll(Full(ts, fanout)) + BytesAll(Tail(ts, fanout))
    decreases |ts|
  {
    if |ts| < fanout {
      assert BytesEach([]) == [];
    } else {
      var rest := ts[fanout..];
      GroupingKeepsBytes(rest, fanout);
      assert ts == ts[..fanout] + rest;
      BytesAllConcat(ts[..fanout], rest);
      BranchBytes(ts[..fanout]);
      BytesAllOne(Branch(ts[..fanout]));
      BytesAllConcat([Branch(ts[..fanout])], Full(rest, fanout));
    }
  }

  lemma LevelUpKeepsBytes(ts: seq<Tree>, fanout: nat)
    requires fanout >= 2
    ensures BytesAll(LevelUp(ts, fanout)) == BytesAll(ts)
  {
    GroupingKeepsBytes(ts, fanout);
    var tail := Tail(ts, fanout);
    if tail == [] {
      assert BytesEach([]) == [];
      assert LevelUp(ts, fanout) == Full(ts, fanout);
    } else {
      BranchBytes(tail);
      BytesAllOne(Branch(tail));
      BytesAllConcat(Full(ts, fanout), [Branch(tail)]);
    }
  }

  /** The tree holds exactly the leaves' content. */
  lemma {:induction false} BuildKeepsBytes(ts: seq<Tree>, fanout: nat)
    requires fanout >= 2 && ts != []
    ensures Bytes(Build(ts, fanout)) == BytesAll(ts)
    decreases |ts|
  {
    if |ts| == 1 {
      assert ts == [ts[0]];
      BytesAllOne(ts[0]);
    } else {
      LevelUpKeepsBytes(ts, fanout);
      BuildKeepsBytes(LevelUp(ts, fanout), fanout);
    }
  }

  // ----- as shallow as possible -----

  function Power(f: nat, k: nat): nat {
    if k == 0 then 1 else f * Power(f, k - 1)
  }

  // Every member of the next level is one level higher.
  lemma {:induction false} GroupingRaisesLevel(ts: seq<Tree>, fanout: nat, level: int)
    requires fanout >= 2 && forall i :: 0 <= i < |ts| ==> Level(ts[i]) == level
    ensures forall i :: 0 <= i < |Full(ts, fanout)| ==> Level(Full(ts, fanout)[i]) == level + 1
    ensures forall i :: 0 <= i < |Tail(ts, fanout)| ==> Level(Tail(ts, fanout)[i]) == level
    decreases |ts|
  {
    if |ts| >= fanout {
      GroupingRaisesLevel(ts[fanout..], fanout, level);
    }
  }

  lemma LevelUpRaises(ts: seq<Tree>, fanout: nat, level: int)
    requires fanout >= 2 && forall i :: 0 <= i < |ts| ==> Level(ts[i]) == level
    ensures forall i :: 0 <= i < |LevelUp(ts, fanout)| ==> Level(LevelUp(ts, fanout)[i]) == level + 1
  {
    GroupingRaisesLevel(ts, fanout, level);
  }

  /** Over n leaves the root's level L is the least that can hold them: fanout^L < n <= fanout^(L+1). */
  lemma {:induction false} RootLevel(ts: seq<Tree>, fanout: nat, level: int) returns (k: nat)
    requires fanout >= 2 && |ts| >= 2 && forall i :: 0 <= i < |ts| ==> Level(ts[i]) == level
    ensures Level(Build(ts, fanout)) == level + 1 + k
    ensures Power(fanout, k) < |ts| <= Power(fanout, k + 1)
    decreases |ts|
  {
    var next := LevelUp(ts, fanout);
    LevelUpRaises(ts, fanout, level);
    CeilingOfGroups(ts, fanout);
    if |next| == 1 {
      k := 0;
      assert Power(fanout, 1) == fanout * Power(fanout, 0) == fanout;
    } else {
      var j := RootLevel(next, fanout, level + 1);
      k := j + 1;
      ScaleBounds(|ts|, |next|, fanout, Power(fanout, j), Power(fanout, j + 1));
    }
  }

  lemma CeilingOfGroups(ts: seq<Tree>, fanout: nat)
    requires fanout >= 2 && |ts| >= 2
    ensures var m := |LevelUp(ts, fanout)|; fanout * (m - 1) < |ts| <= fanout * m
  {
    GroupCount(ts, fanout);
    var full := |Full(ts, fanout)|;
    assert fanout * (full + 1) == fanout * full + fanout;
    assert fanout * (full - 1) == fanout * full - fanout;
  }

  lemma ScaleBounds(n: nat, m: nat, f: nat, low: nat, high: nat)
    requires low < m <= high && f * (m - 1) < n <= f * m
    ensures f * low < n <= f * high
  {
    assert f * low <= f * (m - 1);
    assert f * m <= f * high;
  }

  // ----- chunks -----

  function Chunks(content: bytes, chunkBytes: nat): (r: seq<bytes>)
    requires chunkBytes > 0
    ensures |r| == 0 <==> content == []
    ensures |r| <= 1 <==> |content| <= chunkBytes
    decreases |content|
  {
    if content == [] then []
    else if |content| <= chunkBytes then [content]
    else [content[..chunkBytes]] + Chunks(content[chunkBytes..], chunkBytes)
  }

  function Leaves(chunks: seq<bytes>): (r: seq<Tree>)
    ensures |r| == |chunks|
  {
    seq(|chunks|, i requires 0 <= i < |chunks| => Leaf(chunks[i]))
  }

  lemma {:induction false} ChunksCover(content: bytes, chunkBytes: nat)
    requires chunkBytes > 0
    ensures Flatten(Chunks(content, chunkBytes)) == content
    ensures forall i :: 0 <= i < |Chunks(content, chunkBytes)| ==> 1 <= |Chunks(content, chunkBytes)[i]| <= chunkBytes
    decreases |content|
  {
    if |content| > chunkBytes {
      ChunksCover(content[chunkBytes..], chunkBytes);
      assert content == content[..chunkBytes] + content[chunkBytes..];
    } else if content != [] {
      assert Flatten([content]) == content + Flatten([]);
    }
  }

  lemma LeavesBytes(chunks: seq<bytes>)
    ensures BytesAll(Leaves(chunks)) == Flatten(chunks)
  {
    assert BytesEach(Leaves(chunks)) == chunks;
  }

  function BlobTreeOf(content: bytes, chunkBytes: nat, fanout: nat): Tree
    requires chunkBytes > 0 && fanout >= 2 && content != []
  {
    Build(Leaves(Chunks(content, chunkBytes)), fanout)
  }

  /** The stored tree of a blob of more than one chunk: its bytes, and a root level that is the least possible. */
  lemma BlobTreeIsShallow(content: bytes, chunkBytes: nat, fanout: nat) returns (level: nat)
    requires chunkBytes > 0 && fanout >= 2 && |content| > chunkBytes
    ensures var n := |Chunks(content, chunkBytes)|;
            && Bytes(BlobTreeOf(content, chunkBytes, fanout)) == content
            && Level(BlobTreeOf(content, chunkBytes, fanout)) == level
            && Power(fanout, level) < n <= Power(fanout, level + 1)
  {
    var chunks := Chunks(content, chunkBytes);
    ChunksCover(content, chunkBytes);
    LeavesBytes(chunks);
    BuildKeepsBytes(Leaves(chunks), fanout);
    level := RootLevel(Leaves(chunks), fanout, -1);
  }
}
