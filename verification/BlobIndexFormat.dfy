// The wire form of a blob index byte by byte: the deterministic encoding of
// section 4.2.1 of RFC 8949, with nothing taken from the encoder.
module BlobIndexFormat {
  import opened Prelude
  import opened Codec
  import opened BlobIndex

  // The first byte holds the major type and a small argument, or says how many bytes the argument has.
  ghost predicate IsHead(b: bytes, major: nat, n: nat) {
    if n < 24 then |b| == 1 && b[0] == 32 * major + n
    else if n < 256 then |b| == 2 && b[0] == 32 * major + 24 && b[1] == n
    else if n < 65536 then |b| == 3 && b[0] == 32 * major + 25 && Weighs(b, n)
    else if n < 4294967296 then |b| == 5 && b[0] == 32 * major + 26 && Weighs(b, n)
    else |b| == 9 && b[0] == 32 * major + 27 && Weighs(b, n)
  }

  // The bytes after the first, most significant first.
  ghost predicate Weighs(b: bytes, n: nat) {
    |b| > 0 && n == Weight(b[1..])
  }

  ghost function Weight(b: bytes): nat {
    if b == [] then 0 else b[0] * Pow256(|b| - 1) + Weight(b[1..])
  }

  lemma {:induction false} WeightAppend(b: bytes, last: byte)
    ensures Weight(b + [last]) == 256 * Weight(b) + last
  {
    if b == [] {
      assert [] + [last] == [last] && Weight([last][1..]) == 0 && Pow256(0) == 1;
      assert Weight([last]) == last * 1;
    } else {
      assert (b + [last])[1..] == b[1..] + [last];
      WeightAppend(b[1..], last);
      assert Pow256(|b|) == 256 * Pow256(|b| - 1);
      Regroup(b[0], Pow256(|b| - 1), Weight(b[1..]), last);
    }
  }

  lemma Regroup(first: nat, power: nat, rest: nat, last: nat)
    ensures first * (256 * power) + (256 * rest + last) == 256 * (first * power + rest) + last
  {
    assert first * (256 * power) == 256 * (first * power);
  }

  lemma {:induction false} BigWeighs(value: nat, width: nat)
    requires value < Pow256(width)
    ensures Weight(Big(value, width)) == value
  {
    if width > 0 {
      assert value / 256 < Pow256(width - 1);
      BigWeighs(value / 256, width - 1);
      WeightAppend(Big(value / 256, width - 1), value % 256);
    }
  }

  /** Every number below 2^64 has its shortest head. */
  lemma HeadIsShortest(major: nat, n: nat)
    requires major < 8 && n < 0x1_0000_0000_0000_0000
    ensures IsHead(Head(major, n), major, n)
  {
    Powers();
    var width := Width(n);
    if n >= 256 {
      BigWeighs(n, width);
      assert Head(major, n)[1..] == Big(n, width);
    } else if n >= 24 {
      assert Pow256(1) == 256 * Pow256(0);
      BigWeighs(n, 1);
      assert Big(n, 1) == [n];
    }
  }

  // The heads of an array's numbers.
  ghost predicate AreHeads(heads: seq<bytes>, ns: seq<int>) {
    |heads| == |ns| && forall i :: 0 <= i < |ns| ==> ns[i] >= 0 && IsHead(heads[i], 0, ns[i])
  }

  lemma {:induction false} NumbersAreHeads(ns: seq<int>) returns (heads: seq<bytes>)
    requires forall i :: 0 <= i < |ns| ==> 0 <= ns[i] < 0x1_0000_0000_0000_0000
    ensures AreHeads(heads, ns) && Numbers(ns) == Flatten(heads)
  {
    hide IsHead, Head;
    if ns == [] {
      heads := [];
    } else {
      HeadIsShortest(0, ns[0]);
      var more := NumbersAreHeads(ns[1..]);
      heads := [Head(0, ns[0])] + more;
      assert heads[1..] == more;
    }
  }

  // A map of five entries under "c", "l", "m", "s" and "v": sizes, level, media type, size, version 1.
  ghost predicate IsWire(b: bytes, v: Index, count: bytes, sizes: seq<bytes>, level: bytes, length: bytes, size: bytes) {
    && v.level >= 0 && v.size >= 0
    && IsHead(count, 4, |v.children|) && AreHeads(sizes, v.children) && IsHead(level, 0, v.level)
    && IsHead(length, 3, |v.mediaType|) && IsHead(size, 0, v.size)
    && b == [0xa5] + ([0x61, 0x63] + (count + Flatten(sizes)) + ([0x61, 0x6c] + level
                      + ([0x61, 0x6d] + (length + v.mediaType) + ([0x61, 0x73] + size + ([0x61, 0x76] + [1])))))
  }

  /** What a valid index is, in numbers. */
  lemma ValidInNumbers(v: Index)
    ensures ValidIndex(v) <==>
            && v.version == 1 && 0 <= v.level <= 9007199254740991 && 0 < v.size <= 9007199254740991
            && 1 <= |v.mediaType| <= 1024 && (forall i :: 0 <= i < |v.mediaType| ==> 32 <= v.mediaType[i] <= 126)
            && 1 <= |v.children| <= 256 && (forall i :: 0 <= i < |v.children| ==> v.children[i] > 0)
            && AddUpTo(v.children, v.size)
  {
    TotalsAddUp(v.children, Total(v.children));
    if AddUpTo(v.children, v.size) {
      TotalsAddUp(v.children, v.size);
    }
  }

  // There are running totals from nothing to the size.
  ghost predicate AddUpTo(sizes: seq<int>, size: int) {
    exists totals: seq<int> :: AreTotals(totals, sizes) && totals[|sizes|] == size
  }

  ghost predicate AreTotals(totals: seq<int>, sizes: seq<int>) {
    |totals| == |sizes| + 1 && totals[0] == 0 && forall i :: 0 <= i < |sizes| ==> totals[i + 1] == totals[i] + sizes[i]
  }

  lemma TotalsAddUp(sizes: seq<int>, size: int)
    ensures AddUpTo(sizes, size) <==> Total(sizes) == size
  {
    var running := RunningTotals(sizes);
    forall totals: seq<int> | AreTotals(totals, sizes)
      ensures totals[|sizes|] == Total(sizes)
    {
      TotalsEnd(totals, sizes);
    }
  }

  lemma {:induction false} RunningTotals(sizes: seq<int>) returns (totals: seq<int>)
    ensures AreTotals(totals, sizes) && totals[|sizes|] == Total(sizes)
  {
    if sizes == [] {
      totals := [0];
    } else {
      var before := RunningTotals(sizes[..|sizes| - 1]);
      totals := before + [Total(sizes)];
    }
  }

  lemma {:induction false} TotalsEnd(totals: seq<int>, sizes: seq<int>)
    requires AreTotals(totals, sizes)
    ensures totals[|sizes|] == Total(sizes)
  {
    if sizes != [] {
      TotalsEnd(totals[..|sizes|], sizes[..|sizes| - 1]);
    }
  }

  lemma FixedParts()
    ensures Text(C) == [0x61, 0x63] && Text(L) == [0x61, 0x6c] && Text(M) == [0x61, 0x6d]
    ensures Text(S) == [0x61, 0x73] && Text(V) == [0x61, 0x76]
    ensures Head(5, 5) == [0xa5] && Head(0, 1) == [1]
  {
    assert Head(3, 1) == [0x61];
  }

  /** The encoding of a valid index, byte by byte. */
  lemma WireInBytes(v: Index)
    requires ValidIndex(v)
    ensures exists count, sizes, level, length, size :: IsWire(Wire(v), v, count, sizes, level, length, size)
  {
    hide IsHead, AreHeads, ValidIndex;
    ValidInNumbers(v);
    PositiveSizes(v);
    var sizes := NumbersAreHeads(v.children);
    HeadIsShortest(4, |v.children|);
    HeadIsShortest(0, v.level);
    HeadIsShortest(3, |v.mediaType|);
    HeadIsShortest(0, v.size);
    PutTogether(v, sizes);
    assert IsWire(Wire(v), v, Head(4, |v.children|), sizes, Head(0, v.level), Head(3, |v.mediaType|), Head(0, v.size));
  }

  lemma PositiveSizes(v: Index)
    requires ValidIndex(v)
    ensures forall i :: 0 <= i < |v.children| ==> 0 <= v.children[i] < 0x1_0000_0000_0000_0000
  {
    forall i | 0 <= i < |v.children|
      ensures 0 <= v.children[i] < 0x1_0000_0000_0000_0000
    {
      TotalOfPrefix(v.children, i + 1);
    }
  }

  lemma PutTogether(v: Index, sizes: seq<bytes>)
    requires ValidIndex(v) && Numbers(v.children) == Flatten(sizes)
    ensures Wire(v) ==
            [0xa5] + ([0x61, 0x63] + (Head(4, |v.children|) + Flatten(sizes)) + ([0x61, 0x6c] + Head(0, v.level)
                      + ([0x61, 0x6d] + (Head(3, |v.mediaType|) + v.mediaType) + ([0x61, 0x73] + Head(0, v.size)
                         + ([0x61, 0x76] + [1])))))
  {
    hide Head, Numbers, Flatten, Text, Entries;
    FixedParts();
    TextIs(v.mediaType);
    var fields := Fields(v);
    EntriesOfFive(fields);
  }

  lemma TextIs(text: bytes)
    ensures Text(text) == Head(3, |text|) + text
  {
  }

  lemma EntriesOfFive(fields: seq<(bytes, bytes)>)
    requires |fields| == 5
    ensures Entries(fields) ==
            Text(fields[0].0) + fields[0].1 + (Text(fields[1].0) + fields[1].1 + (Text(fields[2].0) + fields[2].1
            + (Text(fields[3].0) + fields[3].1 + (Text(fields[4].0) + fields[4].1))))
  {
    hide Text;
    assert fields[1..][1..] == fields[2..] && fields[2..][1..] == fields[3..] && fields[3..][1..] == fields[4..];
    assert fields[4..][1..] == [];
    assert Entries(fields[4..]) == Text(fields[4].0) + fields[4].1 + [];
    assert Entries(fields[3..]) == Text(fields[3].0) + fields[3].1 + Entries(fields[4..]);
    assert Entries(fields[2..]) == Text(fields[2].0) + fields[2].1 + Entries(fields[3..]);
    assert Entries(fields[1..]) == Text(fields[1].0) + fields[1].1 + Entries(fields[2..]);
  }
}
