// Version 1 of the node format in numbers: what a legal node is, where every byte of it
// lies, and which complaint any other byte string meets first.
module CodecFormat {
  import opened Prelude
  import opened Codec

  ghost function Number2(b: bytes, i: nat): nat
    requires i + 2 <= |b|
  {
    var low: nat, high: nat := b[i], b[i + 1];
    low + 256 * high
  }

  ghost function Number4(b: bytes, i: nat): nat
    requires i + 4 <= |b|
  {
    Number2(b, i) + 65536 * Number2(b, i + 2)
  }

  ghost function Number8(b: bytes, i: nat): nat
    requires i + 8 <= |b|
  {
    Number4(b, i) + 4294967296 * Number4(b, i + 4)
  }

  lemma Reads2(b: bytes, i: nat)
    requires i + 2 <= |b|
    ensures FromLittle(b[i..i + 2]) == Number2(b, i)
  {
    assert b[i..i + 2] == [b[i], b[i + 1]];
    assert FromLittle([b[i + 1]]) == b[i + 1];
    assert [b[i], b[i + 1]][1..] == [b[i + 1]];
  }

  // The first two bytes, then the others.
  lemma ReadsOn(b: bytes)
    requires |b| >= 2
    ensures FromLittle(b) == Number2(b, 0) + 65536 * FromLittle(b[2..])
  {
    assert b[1..][1..] == b[2..];
  }

  lemma Reads4(b: bytes, i: nat)
    requires i + 4 <= |b|
    ensures FromLittle(b[i..i + 4]) == Number4(b, i)
  {
    Reads2(b, i + 2);
    ReadsOn(b[i..i + 4]);
    assert b[i..i + 4][2..] == b[i + 2..i + 4];
  }

  lemma Reads8(b: bytes, i: nat)
    requires i + 8 <= |b|
    ensures FromLittle(b[i..i + 8]) == Number8(b, i)
  {
    Reads4(b, i + 4);
    ReadsOn(b[i..i + 8]);
    ReadsOn(b[i + 2..i + 8]);
    assert b[i..i + 8][2..] == b[i + 2..i + 8] && b[i + 2..i + 8][2..] == b[i + 4..i + 8];
  }

  ghost function TotalSize(contentSize: nat, typeLength: nat, refCount: nat): nat {
    24 + typeLength + 32 * refCount + contentSize
  }

  ghost predicate UsableLimits(limits: Limits) {
    && (limits.maxCanonicalNodeBytes.Some? ==> 1 <= limits.maxCanonicalNodeBytes.value <= 67108864)
    && (limits.maxNodeRefs.Some? ==> 0 <= limits.maxNodeRefs.value <= 256)
  }

  ghost function MostBytes(limits: Limits): int {
    if limits.maxCanonicalNodeBytes.Some? then limits.maxCanonicalNodeBytes.value else 67108864
  }

  ghost function MostRefs(limits: Limits): int {
    if limits.maxNodeRefs.Some? then limits.maxNodeRefs.value else 256
  }

  /** Legal nodes: a printable type of 1 to 1024 bytes, 32-byte hashes, and both limits kept; by default 256 and 64 MiB. */
  lemma LegalInNumbers(node: Node, limits: Limits)
    ensures LegalNode(node, limits) <==>
            && UsableLimits(limits)
            && 1 <= |node.contentType| <= 1024
            && (forall i :: 0 <= i < |node.contentType| ==> 32 <= node.contentType[i] <= 126)
            && |node.refs| <= MostRefs(limits)
            && (forall i :: 0 <= i < |node.refs| ==> |node.refs[i]| == 32)
            && TotalSize(|node.content|, |node.contentType|, |node.refs|) <= MostBytes(limits)
  {
  }

  /** Where every byte of an encoded node lies. */
  lemma LayoutInNumbers(node: Node)
    requires LegalNode(node, DEFAULT_LIMITS)
    ensures var b := Encode(node);
            && |b| == TotalSize(|node.content|, |node.contentType|, |node.refs|)
            && b[..8] == [0x55, 0x44, 1, 0, 0, 0, 0, 0]
            && Number8(b, 8) == |node.content| && Number4(b, 16) == |node.refs|
            && Number2(b, 20) == |node.contentType| && b[22] == b[23] == 0
            && b[24..24 + |node.contentType|] == node.contentType
            && (forall k :: 0 <= k < |node.refs| ==>
                  b[24 + |node.contentType| + 32 * k..24 + |node.contentType| + 32 * (k + 1)] == node.refs[k])
            && b[24 + |node.contentType| + 32 * |node.refs|..] == node.content
  {
    hide HeaderBytes;
    EncodedParts(node);
    LegalInNumbers(node, DEFAULT_LIMITS);
    var b := Encode(node);
    HeaderInNumbers(|node.content|, |node.contentType|, |node.refs|);
    HeaderOf(b, HeaderBytes(|node.content|, |node.contentType|, |node.refs|));
    forall k | 0 <= k < |node.refs|
      ensures b[24 + |node.contentType| + 32 * k..24 + |node.contentType| + 32 * (k + 1)] == node.refs[k]
    {
      RefAt(node.refs, k);
      var from, to := 24 + |node.contentType|, 24 + |node.contentType| + 32 * |node.refs|;
      assert b[from..to][32 * k..32 * (k + 1)] == b[from + 32 * k..from + 32 * (k + 1)];
    }
  }

  lemma HeaderOf(b: bytes, header: bytes)
    requires |header| == 24 <= |b| && b[..24] == header
    ensures b[..8] == header[..8]
    ensures Number8(b, 8) == Number8(header, 8) && Number4(b, 16) == Number4(header, 16) && Number2(b, 20) == Number2(header, 20)
    ensures b[22] == header[22] && b[23] == header[23]
  {
    assert forall i :: 0 <= i < 24 ==> b[i] == b[..24][i];
  }

  lemma {:induction false} RefAt(refs: seq<Hash>, k: nat)
    requires k < |refs| && forall i :: 0 <= i < |refs| ==> |refs[i]| == 32
    ensures |Flatten(refs)| == 32 * |refs| && Flatten(refs)[32 * k..32 * (k + 1)] == refs[k]
  {
    FlattenHashesLength(refs);
    if k > 0 {
      RefAt(refs[1..], k - 1);
      var rest := Flatten(refs[1..]);
      assert Flatten(refs) == refs[0] + rest;
      assert (refs[0] + rest)[32 * k..32 * (k + 1)] == rest[32 * (k - 1)..32 * k];
    } else {
      assert Flatten(refs)[0..32] == refs[0];
    }
  }

  lemma HeaderInNumbers(contentSize: nat, typeLength: nat, refCount: nat)
    requires contentSize <= 67108864 && typeLength <= 1024 && refCount <= 256
    ensures var b := HeaderBytes(contentSize, typeLength, refCount);
            && b[..8] == [0x55, 0x44, 1, 0, 0, 0, 0, 0]
            && Number8(b, 8) == contentSize && Number4(b, 16) == refCount && Number2(b, 20) == typeLength
            && b[22] == b[23] == 0
  {
    hide HeaderBytes, FromLittle;
    var b := HeaderBytes(contentSize, typeLength, refCount);
    Powers();
    HeaderFields(contentSize, typeLength, refCount);
    LittleRoundTrip(contentSize, 8);
    LittleRoundTrip(refCount, 4);
    LittleRoundTrip(typeLength, 2);
    Reads8(b, 8);
    Reads4(b, 16);
    Reads2(b, 20);
    ZeroBytes(b);
  }

  lemma ZeroBytes(b: bytes)
    requires |b| == 24 && b[0..2] == [0x55, 0x44] && b[2..4] == Little(VERSION, 2) && b[4..8] == Little(0, 4)
    requires b[22..24] == Little(0, 2)
    ensures b[..8] == [0x55, 0x44, 1, 0, 0, 0, 0, 0] && b[22] == b[23] == 0
  {
    assert Little(VERSION, 2) == [1, 0] && Little(0, 2) == [0, 0] && Little(0, 1) == [0];
    assert Little(0, 3) == [0, 0, 0] && Little(0, 4) == [0, 0, 0, 0];
    assert b[22] == b[22..24][0] && b[23] == b[22..24][1];
    assert b[..8] == b[0..2] + b[2..4] + b[4..8];
  }

  // ----- what is refused, and for what -----

  // The complaint about sizes alone, in the order they are looked at.
  ghost function SizeRefusal(contentSize: nat, typeLength: nat, refCount: nat, limits: Limits): Option<CodecError> {
    if !UsableLimits(limits) then Some(LimitOutOfRange)
    else if contentSize > 9007199254740991 then Some(InvalidContentSize)
    else if typeLength < 1 || typeLength > 1024 then Some(ContentTypeLengthOutOfRange)
    else if refCount > MostRefs(limits) then Some(RefCountOutOfRange)
    else if TotalSize(contentSize, typeLength, refCount) > 9007199254740991 then Some(TotalOverflow)
    else if TotalSize(contentSize, typeLength, refCount) > MostBytes(limits) then Some(NodeTooLarge)
    else None
  }

  ghost function HeaderRefusal(b: bytes, declared: Option<nat>, limits: Limits): Option<CodecError>
    requires |b| >= 24
  {
    var contentSize, refCount, typeLength := Number8(b, 8), Number4(b, 16), Number2(b, 20);
    if b[0] != 0x55 || b[1] != 0x44 then Some(InvalidSignature)
    else if Number2(b, 2) != 1 then Some(UnsupportedVersion)
    else if Number4(b, 4) != 0 then Some(NonZeroFlags)
    else if Number2(b, 22) != 0 then Some(NonZeroReserved)
    else if SizeRefusal(contentSize, typeLength, refCount, DEFAULT_LIMITS).Some?
    then SizeRefusal(contentSize, typeLength, refCount, DEFAULT_LIMITS)
    else if SizeRefusal(contentSize, typeLength, refCount, limits).Some?
    then SizeRefusal(contentSize, typeLength, refCount, limits)
    else if declared.Some? && declared.value != TotalSize(contentSize, typeLength, refCount) then Some(LengthMismatch)
    else None
  }

  // What the streaming parser complains about first, if about anything.
  ghost function Refusal(b: bytes, declared: Option<nat>, limits: Limits): Option<CodecError> {
    if |b| < 24 then Some(EndedEarly)
    else if HeaderRefusal(b, declared, limits).Some? then HeaderRefusal(b, declared, limits)
    else
      var typeEnd := 24 + Number2(b, 20);
      if |b| < typeEnd then Some(EndedEarly)
      else if exists i :: 24 <= i < typeEnd && !(32 <= b[i] <= 126) then Some(ContentTypeNotPrintable)
      else if |b| < typeEnd + 32 * Number4(b, 16) then Some(EndedEarly)
      else None
  }

  lemma SizesRefused(contentSize: nat, typeLength: nat, refCount: nat, limits: Limits)
    ensures var r := ValidateCanonicalNodeSize(contentSize, typeLength, refCount, limits);
            match SizeRefusal(contentSize, typeLength, refCount, limits)
            case Some(e) => r == Err(e)
            case None => r == Ok(TotalSize(contentSize, typeLength, refCount))
  {
  }

  // The size field is read as a double, which is exact up to the last safe integer and stays beyond it.
  lemma SizeField(u: nat, typeLength: nat, refCount: nat)
    ensures SizeRefusal(ToNumber(u), typeLength, refCount, DEFAULT_LIMITS)
            == SizeRefusal(u, typeLength, refCount, DEFAULT_LIMITS)
    ensures SizeRefusal(u, typeLength, refCount, DEFAULT_LIMITS).None? ==> ToNumber(u) == u
  {
    NumberSafety(u);
  }

  lemma HeaderRefused(b: bytes, declared: Option<nat>, limits: Limits)
    requires |b| >= 24
    ensures var r := CheckHeader(b[..24], declared, limits);
            match HeaderRefusal(b, declared, limits)
            case Some(e) => r == Err(e)
            case None =>
              r.Ok? && r.value.0.refCount == Number4(b, 16) && r.value.0.contentTypeLength == Number2(b, 20)
              && r.value.0.contentSize == Number8(b, 8)
  {
    hide ToNumber, FromLittle, ValidateCanonicalNodeSize, SizeRefusal;
    var header := b[..24];
    HeaderOfPrefix(b);
    Reads2(header, 2);
    Reads4(header, 4);
    Reads8(header, 8);
    Reads4(header, 16);
    Reads2(header, 20);
    Reads2(header, 22);
    var size, refCount, typeLength := Number8(b, 8), Number4(b, 16), Number2(b, 20);
    SizeField(size, typeLength, refCount);
    SizesRefused(ToNumber(size), typeLength, refCount, DEFAULT_LIMITS);
    SizesRefused(ToNumber(size), typeLength, refCount, limits);
    assert header[0..2] == [b[0], b[1]];
  }

  lemma HeaderOfPrefix(b: bytes)
    requires |b| >= 24
    ensures var h := b[..24];
            && Number2(h, 2) == Number2(b, 2) && Number4(h, 4) == Number4(b, 4) && Number8(h, 8) == Number8(b, 8)
            && Number4(h, 16) == Number4(b, 16) && Number2(h, 20) == Number2(b, 20) && Number2(h, 22) == Number2(b, 22)
  {
  }

  /** A byte string is refused with the first complaint there is, and accepted when there is none. */
  lemma RefusedInOrder(b: bytes, declared: Option<nat>, limits: Limits)
    ensures match Refusal(b, declared, limits)
            case Some(e) => ParsePrefix(b, declared, limits) == Err(e)
            case None => ParsePrefix(b, declared, limits).Ok?
  {
    hide CheckHeader, HeaderRefusal, Number2, Number4, Number8, SplitHashes;
    if |b| >= 24 {
      HeaderRefused(b, declared, limits);
      if HeaderRefusal(b, declared, limits).None? {
        TypeLengthIsLegal(b, declared, limits);
        var typeEnd := 24 + Number2(b, 20);
        if typeEnd <= |b| {
          PrintableType(b, typeEnd);
        }
      }
    }
  }

  lemma TypeLengthIsLegal(b: bytes, declared: Option<nat>, limits: Limits)
    requires |b| >= 24 && HeaderRefusal(b, declared, limits).None?
    ensures 1 <= Number2(b, 20) <= 1024
  {
  }

  lemma PrintableType(b: bytes, typeEnd: nat)
    requires 24 <= typeEnd <= |b|
    ensures Printable(b[24..typeEnd]) <==> forall i :: 24 <= i < typeEnd ==> 32 <= b[i] <= 126
  {
    if Printable(b[24..typeEnd]) {
      forall i | 24 <= i < typeEnd
        ensures 32 <= b[i] <= 126
      {
        assert b[24..typeEnd][i - 24] == b[i];
      }
    }
  }
}
