// The canonical node format: a fixed little-endian header, the content type,
// the raw child hashes and the node's own content, with no padding.
//
// A content type is carried as its UTF-8 bytes. Only printable ASCII passes
// validation, and there the text and its bytes are the same thing.
module Codec {
  import opened Prelude

  const HEADER_SIZE: nat := 24
  const HASH_SIZE: nat := 32
  const VERSION: nat := 1
  const MIN_CONTENT_TYPE_LENGTH: nat := 1
  const MAX_CONTENT_TYPE_LENGTH: nat := 1024
  const MAX_CANONICAL_NODE_BYTES: nat := 64 * 1024 * 1024
  const MAX_NODE_REFS: nat := 256

  datatype CodecError =
    | HeaderLength
    | InvalidSignature
    | UnsupportedVersion
    | NonZeroFlags
    | NonZeroReserved
    | InvalidContentSize
    | ContentTypeLengthOutOfRange
    | RefCountOutOfRange
    | TotalOverflow
    | NodeTooLarge
    | LimitOutOfRange
    | LengthMismatch
    | EndedEarly
    | ContentTypeNotPrintable

  datatype Header = Header(
    signature: bytes,
    version: nat,
    flags: nat,
    contentSize: nat,
    refCount: nat,
    contentTypeLength: nat,
    reserved: nat
  )

  datatype Limits = Limits(maxCanonicalNodeBytes: Option<int>, maxNodeRefs: Option<int>)

  const DEFAULT_LIMITS := Limits(None, None)

  datatype Node = Node(contentType: bytes, refs: seq<Hash>, content: bytes)

  // What the streaming parser reports.
  datatype Metadata = Metadata(contentSize: nat, contentType: bytes, refs: seq<Hash>)

  // ----- little-endian integers -----

  // The bytes a DataView writes for `value`: those of the value modulo 256^width.
  function Little(value: nat, width: nat): (r: bytes)
    ensures |r| == width
  {
    if width == 0 then [] else [value % 256] + Little(value / 256, width - 1)
  }

  function FromLittle(b: bytes): nat {
    if b == [] then 0 else b[0] + 256 * FromLittle(b[1..])
  }

  function Pow256(n: nat): (p: nat)
    ensures p > 0
  {
    if n == 0 then 1 else 256 * Pow256(n - 1)
  }

  lemma {:induction false} LittleRoundTrip(value: nat, width: nat)
    requires value < Pow256(width)
    ensures FromLittle(Little(value, width)) == value
  {
    if width > 0 {
      assert value / 256 < Pow256(width - 1);
      LittleRoundTrip(value / 256, width - 1);
      assert Little(value, width)[1..] == Little(value / 256, width - 1);
    }
  }

  lemma {:induction false} FromLittleRoundTrip(b: bytes)
    ensures Little(FromLittle(b), |b|) == b
  {
    if b != [] {
      FromLittleRoundTrip(b[1..]);
      var rest := FromLittle(b[1..]);
      assert (b[0] + 256 * rest) % 256 == b[0] && (b[0] + 256 * rest) / 256 == rest;
      assert b == [b[0]] + b[1..];
    }
  }

  // ----- unsigned 64-bit integers read as a Number -----

  // The spacing of doubles around `u`.
  function Ulp(u: nat): (r: nat)
    ensures r > 0
  {
    if u <= MAX_SAFE_INTEGER then 1 else 2 * Ulp(u / 2)
  }

  // Number(bigint): round to the nearest double, ties to even.
  function ToNumber(u: nat): nat {
    var ulp := Ulp(u);
    var q, r := u / ulp, u % ulp;
    if 2 * r < ulp || (2 * r == ulp && q % 2 == 0) then q * ulp else (q + 1) * ulp
  }

  lemma {:induction false} UlpKeepsLeadingBits(u: nat)
    requires u > MAX_SAFE_INTEGER
    ensures Ulp(u) >= 2 && u / Ulp(u) >= 4503599627370496
    decreases u
  {
    if u / 2 > MAX_SAFE_INTEGER {
      UlpKeepsLeadingBits(u / 2);
      var h := Ulp(u / 2);
      DivideTwice(u, h);
    } else {
      assert Ulp(u / 2) == 1;
    }
  }

  lemma DivideTwice(u: nat, h: nat)
    requires h > 0
    ensures u / (2 * h) == (u / 2) / h
  {
    var q := u / 2 / h;
    var r := u / 2 % h;
    assert u / 2 == q * h + r;
    assert u == 2 * (q * h + r) + u % 2;
    assert u == q * (2 * h) + (2 * r + u % 2);
    assert 0 <= 2 * r + u % 2 < 2 * h;
    QuotientIs(u, 2 * h, q, 2 * r + u % 2);
  }

  lemma QuotientIs(u: int, d: int, q: int, r: int)
    requires d > 0 && 0 <= r < d && u == q * d + r
    ensures u / d == q
  {
    var k := u / d - q;
    assert k * d == u / d * d - q * d == r - u % d;
    ProductGrows(k, d);
  }

  lemma ProductGrows(k: int, d: int)
    requires d > 0
    ensures k >= 1 ==> k * d >= d
    ensures k <= -1 ==> k * d <= -d
  {
  }

  /** Rounding never brings an unsafe 64-bit size back into the safe range, and keeps safe ones exact. */
  lemma NumberSafety(u: nat)
    ensures ToNumber(u) <= MAX_SAFE_INTEGER <==> u <= MAX_SAFE_INTEGER
    ensures u <= MAX_SAFE_INTEGER ==> ToNumber(u) == u
  {
    if u <= MAX_SAFE_INTEGER {
      assert Ulp(u) == 1 && u / 1 == u && u % 1 == 0;
    } else {
      UlpKeepsLeadingBits(u);
      ProductOfLeadingBits(u / Ulp(u), Ulp(u));
    }
  }

  lemma ProductOfLeadingBits(q: int, ulp: int)
    requires q >= 4503599627370496 && ulp >= 2
    ensures q * ulp > MAX_SAFE_INTEGER && (q + 1) * ulp > MAX_SAFE_INTEGER
  {
    assert q * ulp >= q * 2;
    assert (q + 1) * ulp == q * ulp + ulp;
  }

  // ----- header -----

  function HeaderBytes(contentSize: nat, contentTypeLength: nat, refCount: nat): (r: bytes)
    ensures |r| == HEADER_SIZE
  {
    [0x55, 0x44] + Little(VERSION, 2) + Little(0, 4) + Little(contentSize, 8)
    + Little(refCount, 4) + Little(contentTypeLength, 2) + Little(0, 2)
  }

  // DataView.setUintN(offset, value, littleEndian = true)
  method SetUint(a: array<byte>, offset: nat, width: nat, value: nat)
    requires offset + width <= a.Length
    modifies a
    ensures a[..] == old(a[..offset]) + Little(value, width) + old(a[offset + width..])
    ensures a[..offset + width] == old(a[..offset]) + Little(value, width)
  {
    var v := value;
    var i := 0;
    while i < width
      invariant 0 <= i <= width
      invariant Little(value, width)[i..] == Little(v, width - i)
      invariant a[..] == old(a[..offset]) + Little(value, width)[..i] + old(a[offset + i..])
    {
      a[offset + i] := v % 256;
      assert Little(value, width)[i] == Little(v, width - i)[0];
      assert Little(value, width)[i + 1..] == Little(v, width - i)[1..];
      v := v / 256;
      i := i + 1;
    }
  }

  /** The header written field by field is the header the format describes. */
  method EncodeHeader(contentSize: nat, contentType: bytes, refCount: nat) returns (header: array<byte>)
    ensures fresh(header) && header[..] == HeaderBytes(contentSize, |contentType|, refCount)
  {
    header := new byte[HEADER_SIZE](i => 0);
    header[0] := 0x55;
    header[1] := 0x44;
    assert header[..2] == [0x55, 0x44];
    SetUint(header, 2, 2, VERSION);
    SetUint(header, 4, 4, 0);
    SetUint(header, 8, 8, contentSize);
    SetUint(header, 16, 4, refCount);
    SetUint(header, 20, 2, |contentType|);
    SetUint(header, 22, 2, 0);
    assert header[..] == header[..24];
  }

  function DecodeHeader(header: bytes): Result<Header, CodecError> {
    if |header| != HEADER_SIZE then Err(HeaderLength)
    else Ok(Header(header[0..2], FromLittle(header[2..4]), FromLittle(header[4..8]),
                   ToNumber(FromLittle(header[8..16])), FromLittle(header[16..20]),
                   FromLittle(header[20..22]), FromLittle(header[22..24])))
  }

  // ----- validation -----

  function ResolveLimit(value: Option<int>, maximum: nat, allowZero: bool): Result<nat, CodecError> {
    match value
    case None => Ok(maximum)
    case Some(v) =>
      if v < (if allowZero then 0 else 1) || v > maximum then Err(LimitOutOfRange) else Ok(v)
  }

  function CanonicalLength(contentSize: nat, contentTypeLength: nat, refCount: nat): nat {
    HEADER_SIZE + contentTypeLength + refCount * HASH_SIZE + contentSize
  }

  function ValidateCanonicalNodeSize(contentSize: nat, contentTypeLength: nat, refCount: nat, limits: Limits)
    : Result<nat, CodecError>
  {
    var maxBytes :- ResolveLimit(limits.maxCanonicalNodeBytes, MAX_CANONICAL_NODE_BYTES, false);
    var maxRefs :- ResolveLimit(limits.maxNodeRefs, MAX_NODE_REFS, true);
    if contentSize > MAX_SAFE_INTEGER then Err(InvalidContentSize)
    else if contentTypeLength < MIN_CONTENT_TYPE_LENGTH || contentTypeLength > MAX_CONTENT_TYPE_LENGTH
    then Err(ContentTypeLengthOutOfRange)
    else if refCount > maxRefs then Err(RefCountOutOfRange)
    else
      var total := CanonicalLength(contentSize, contentTypeLength, refCount);
      if total > MAX_SAFE_INTEGER then Err(TotalOverflow)
      else if total > maxBytes then Err(NodeTooLarge)
      else Ok(total)
  }

  function ValidateDecodedHeader(h: Header): Result<(), CodecError> {
    if h.signature != [0x55, 0x44] then Err(InvalidSignature)
    else if h.version != VERSION then Err(UnsupportedVersion)
    else if h.flags != 0 then Err(NonZeroFlags)
    else if h.reserved != 0 then Err(NonZeroReserved)
    else
      var _ :- ValidateCanonicalNodeSize(h.contentSize, h.contentTypeLength, h.refCount, DEFAULT_LIMITS);
      Ok(())
  }

  predicate Printable(b: bytes) {
    forall i :: 0 <= i < |b| ==> 0x20 <= b[i] <= 0x7e
  }

  function ValidateContentType(contentType: bytes): Result<(), CodecError> {
    if |contentType| < MIN_CONTENT_TYPE_LENGTH || |contentType| > MAX_CONTENT_TYPE_LENGTH
    then Err(ContentTypeLengthOutOfRange)
    else if !Printable(contentType) then Err(ContentTypeNotPrintable)
    else Ok(())
  }

  // ----- encoding -----

  function Encode(node: Node): bytes {
    HeaderBytes(|node.content|, |node.contentType|, |node.refs|)
    + node.contentType + Flatten(node.refs) + node.content
  }

  // Where a node's own content starts in its canonical bytes.
  function PrefixLength(contentType: bytes, refs: seq<Hash>): nat {
    HEADER_SIZE + |contentType| + |refs| * HASH_SIZE
  }

  predicate RawHashes(refs: seq<Hash>) {
    forall i :: 0 <= i < |refs| ==> |refs[i]| == HASH_SIZE
  }

  lemma {:induction false} FlattenHashesLength(refs: seq<Hash>)
    requires RawHashes(refs)
    ensures |Flatten(refs)| == |refs| * HASH_SIZE
  {
    if refs != [] {
      FlattenHashesLength(refs[1..]);
    }
  }

  /** Writing the parts at a moving offset lays them out back to back. */
  method ConcatenateNodeBytes(header: bytes, contentType: bytes, childHashes: seq<Hash>, content: bytes)
    returns (result: array<byte>)
    requires |header| == HEADER_SIZE && RawHashes(childHashes)
    ensures fresh(result) && result[..] == header + contentType + Flatten(childHashes) + content
  {
    FlattenHashesLength(childHashes);
    var total := HEADER_SIZE + |contentType| + |childHashes| * HASH_SIZE + |content|;
    result := new byte[total](i => 0);
    var offset := 0;
    Place(result, offset, header);
    offset := offset + HEADER_SIZE;
    Place(result, offset, contentType);
    offset := offset + |contentType|;
    assert childHashes[..0] == [];
    assert result[..offset] == header + contentType + Flatten(childHashes[..0]);
    for i := 0 to |childHashes|
      invariant offset == HEADER_SIZE + |contentType| + i * HASH_SIZE
      invariant offset + (|childHashes| - i) * HASH_SIZE + |content| == total
      invariant result[..offset] == header + contentType + Flatten(childHashes[..i])
    {
      assert childHashes[..i + 1] == childHashes[..i] + [childHashes[i]];
      FlattenAppend(childHashes[..i], childHashes[i]);
      Place(result, offset, childHashes[i]);
      offset := offset + HASH_SIZE;
    }
    assert childHashes[..|childHashes|] == childHashes;
    Place(result, offset, content);
  }

  // Uint8Array.set(source, offset)
  method Place(a: array<byte>, offset: nat, source: bytes)
    requires offset + |source| <= a.Length
    modifies a
    ensures a[..] == old(a[..offset]) + source + old(a[offset + |source|..])
    ensures a[..offset + |source|] == old(a[..offset]) + source
  {
    forall i | 0 <= i < |source| {
      a[offset + i] := source[i];
    }
    assert a[..] == old(a[..offset]) + source + old(a[offset + |source|..]);
  }

  // ----- parsing -----

  // Cut a run of raw hashes into its 32-byte pieces.
  function SplitHashes(b: bytes): (refs: seq<Hash>)
    requires |b| % HASH_SIZE == 0
    ensures RawHashes(refs) && |refs| * HASH_SIZE == |b|
  {
    if b == [] then [] else [b[..HASH_SIZE]] + SplitHashes(b[HASH_SIZE..])
  }

  lemma {:induction false} SplitThenFlatten(b: bytes)
    requires |b| % HASH_SIZE == 0
    ensures Flatten(SplitHashes(b)) == b
  {
    if b != [] {
      SplitThenFlatten(b[HASH_SIZE..]);
      assert SplitHashes(b)[1..] == SplitHashes(b[HASH_SIZE..]);
      assert b == b[..HASH_SIZE] + b[HASH_SIZE..];
    }
  }

  lemma {:induction false} FlattenThenSplit(refs: seq<Hash>)
    requires RawHashes(refs)
    ensures |Flatten(refs)| % HASH_SIZE == 0 && SplitHashes(Flatten(refs)) == refs
  {
    FlattenHashesLength(refs);
    if refs != [] {
      var b := Flatten(refs);
      FlattenThenSplit(refs[1..]);
      assert b[..HASH_SIZE] == refs[0] && b[HASH_SIZE..] == Flatten(refs[1..]);
      assert refs == [refs[0]] + refs[1..];
    }
  }

  // The header checks of the streaming parser: the header, and the canonical length it announces.
  function CheckHeader(header: bytes, declaredLength: Option<nat>, limits: Limits): Result<(Header, nat), CodecError> {
    var h :- DecodeHeader(header);
    var _ :- ValidateDecodedHeader(h);
    var canonicalSize :- ValidateCanonicalNodeSize(h.contentSize, h.contentTypeLength, h.refCount, limits);
    if declaredLength.Some? && declaredLength.value != canonicalSize then Err(LengthMismatch)
    else Ok((h, canonicalSize))
  }

  // What follows the header, given the header.
  function ParseBody(b: bytes, h: Header): Result<Metadata, CodecError>
    requires |b| >= HEADER_SIZE
  {
    var typeEnd := HEADER_SIZE + h.contentTypeLength;
    if |b| < typeEnd then Err(EndedEarly)
    else
      var contentType := b[HEADER_SIZE..typeEnd];
      if !Printable(contentType) then Err(ContentTypeNotPrintable)
      else
        var _ :- ValidateContentType(contentType);
        var refsEnd := typeEnd + h.refCount * HASH_SIZE;
        if |b| < refsEnd then Err(EndedEarly)
        else Ok(Metadata(h.contentSize, contentType, SplitHashes(b[typeEnd..refsEnd])))
  }

  /** The bounded-prefix parse, as a function of the whole byte string the stream carries. */
  function ParsePrefix(b: bytes, declaredLength: Option<nat>, limits: Limits): Result<Metadata, CodecError> {
    if |b| < HEADER_SIZE then Err(EndedEarly)
    else
      var (h, _) :- CheckHeader(b[..HEADER_SIZE], declaredLength, limits);
      ParseBody(b, h)
  }

  // A complete canonical node: its length is declared by the bytes themselves.
  function ParseNode(b: bytes, limits: Limits): Result<Metadata, CodecError> {
    ParsePrefix(b, Some(|b|), limits)
  }

  // Nodes that fit the version-1 rules under the given limits.
  predicate LegalNode(node: Node, limits: Limits) {
    && Printable(node.contentType)
    && RawHashes(node.refs)
    && ValidateCanonicalNodeSize(|node.content|, |node.contentType|, |node.refs|, limits).Ok?
  }

  lemma LegalNodeIsLegalByDefault(node: Node, limits: Limits)
    requires LegalNode(node, limits)
    ensures LegalNode(node, DEFAULT_LIMITS)
  {
  }

  lemma CutLast(front: bytes, last: bytes, whole: bytes)
    requires |front| + |last| <= |whole| && whole[..|front| + |last|] == front + last
    ensures whole[..|front|] == front && whole[|front|..|front| + |last|] == last
  {
    var both := whole[..|front| + |last|];
    assert both[..|front|] == whole[..|front|] && both[|front|..] == whole[|front|..|front| + |last|];
  }

  // The header's fields lie where the decoder looks for them.
  lemma HeaderFields(contentSize: nat, contentTypeLength: nat, refCount: nat)
    ensures var b := HeaderBytes(contentSize, contentTypeLength, refCount);
            && b[0..2] == [0x55, 0x44] && b[2..4] == Little(VERSION, 2) && b[4..8] == Little(0, 4)
            && b[8..16] == Little(contentSize, 8) && b[16..20] == Little(refCount, 4)
            && b[20..22] == Little(contentTypeLength, 2) && b[22..24] == Little(0, 2)
  {
    var b := HeaderBytes(contentSize, contentTypeLength, refCount);
    var s: bytes := [0x55, 0x44];
    var v := s + Little(VERSION, 2);
    var f := v + Little(0, 4);
    var c := f + Little(contentSize, 8);
    var r := c + Little(refCount, 4);
    var t := r + Little(contentTypeLength, 2);
    assert b[..24] == b;
    CutLast(t, Little(0, 2), b);
    CutLast(r, Little(contentTypeLength, 2), b);
    CutLast(c, Little(refCount, 4), b);
    CutLast(f, Little(contentSize, 8), b);
    CutLast(v, Little(0, 4), b);
    CutLast(s, Little(VERSION, 2), b);
  }

  lemma Powers()
    ensures Pow256(2) == 0x1_0000 && Pow256(4) == 0x1_0000_0000 && Pow256(8) == 0x1_0000_0000_0000_0000
  {
    assert Pow256(1) == 256;
    assert Pow256(2) == 256 * Pow256(1);
    assert Pow256(3) == 256 * Pow256(2);
    assert Pow256(4) == 256 * Pow256(3);
    assert Pow256(5) == 256 * Pow256(4);
    assert Pow256(6) == 256 * Pow256(5);
    assert Pow256(7) == 256 * Pow256(6);
    assert Pow256(8) == 256 * Pow256(7);
  }

  /** Encoding then decoding a header gives back every field, over the whole range each field can hold. */
  lemma HeaderRoundTrip(contentSize: nat, contentTypeLength: nat, refCount: nat)
    requires contentSize <= MAX_SAFE_INTEGER && contentTypeLength < 0x1_0000 && refCount < 0x1_0000_0000
    ensures DecodeHeader(HeaderBytes(contentSize, contentTypeLength, refCount))
            == Ok(Header([0x55, 0x44], VERSION, 0, contentSize, refCount, contentTypeLength, 0))
  {
    Powers();
    HeaderFields(contentSize, contentTypeLength, refCount);
    LittleRoundTrip(VERSION, 2);
    LittleRoundTrip(0, 4);
    LittleRoundTrip(contentSize, 8);
    LittleRoundTrip(refCount, 4);
    LittleRoundTrip(contentTypeLength, 2);
    LittleRoundTrip(0, 2);
    NumberSafety(contentSize);
  }

  /** A header that decodes and validates is the one the encoder writes for its fields. */
  lemma HeaderIsCanonical(header: bytes)
    requires DecodeHeader(header).Ok? && ValidateDecodedHeader(DecodeHeader(header).value).Ok?
    ensures var h := DecodeHeader(header).value;
            header == HeaderBytes(h.contentSize, h.contentTypeLength, h.refCount)
  {
    var h := DecodeHeader(header).value;
    NumberSafety(FromLittle(header[8..16]));
    FieldIs(header[2..4], VERSION);
    FieldIs(header[4..8], 0);
    FieldIs(header[8..16], h.contentSize);
    FieldIs(header[16..20], h.refCount);
    FieldIs(header[20..22], h.contentTypeLength);
    FieldIs(header[22..24], 0);
    assert header == header[0..2] + header[2..4] + header[4..8] + header[8..16]
                     + header[16..20] + header[20..22] + header[22..24];
  }

  lemma FieldIs(b: bytes, value: nat)
    requires FromLittle(b) == value
    ensures b == Little(value, |b|)
  {
    FromLittleRoundTrip(b);
  }

  // The parts of an encoded node, by position.
  lemma EncodedParts(node: Node)
    requires RawHashes(node.refs)
    ensures var b := Encode(node);
            var typeEnd := HEADER_SIZE + |node.contentType|;
            var refsEnd := PrefixLength(node.contentType, node.refs);
            && |b| == CanonicalLength(|node.content|, |node.contentType|, |node.refs|)
            && b[..HEADER_SIZE] == HeaderBytes(|node.content|, |node.contentType|, |node.refs|)
            && b[HEADER_SIZE..typeEnd] == node.contentType
            && b[typeEnd..refsEnd] == Flatten(node.refs)
            && b[refsEnd..] == node.content
  {
    FlattenHashesLength(node.refs);
  }

  // The header an encoder wrote for a legal node passes every check.
  lemma EncodedHeaderPasses(contentSize: nat, contentTypeLength: nat, refCount: nat, declared: Option<nat>, limits: Limits)
    requires ValidateCanonicalNodeSize(contentSize, contentTypeLength, refCount, limits).Ok?
    requires declared == None || declared == Some(CanonicalLength(contentSize, contentTypeLength, refCount))
    ensures CheckHeader(HeaderBytes(contentSize, contentTypeLength, refCount), declared, limits)
            == Ok((Header([0x55, 0x44], VERSION, 0, contentSize, refCount, contentTypeLength, 0),
                   CanonicalLength(contentSize, contentTypeLength, refCount)))
  {
    HeaderRoundTrip(contentSize, contentTypeLength, refCount);
  }

  lemma EncodedBody(node: Node, h: Header)
    requires LegalNode(node, DEFAULT_LIMITS)
    requires h.contentSize == |node.content| && h.contentTypeLength == |node.contentType| && h.refCount == |node.refs|
    ensures |Encode(node)| >= HEADER_SIZE
    ensures ParseBody(Encode(node), h) == Ok(Metadata(|node.content|, node.contentType, node.refs))
  {
    EncodedParts(node);
    FlattenThenSplit(node.refs);
  }

  /** Encoding then parsing is the identity on every legal node, with or without a declared length. */
  lemma EncodeThenParse(node: Node, limits: Limits)
    requires LegalNode(node, limits)
    ensures var b := Encode(node);
            var m := Metadata(|node.content|, node.contentType, node.refs);
            && ParsePrefix(b, None, limits) == Ok(m)
            && ParseNode(b, limits) == Ok(m)
            && PrefixLength(node.contentType, node.refs) <= |b|
            && b[PrefixLength(node.contentType, node.refs)..] == node.content
  {
    var h := Header([0x55, 0x44], VERSION, 0, |node.content|, |node.refs|, |node.contentType|, 0);
    EncodedParts(node);
    LegalNodeIsLegalByDefault(node, limits);
    EncodedHeaderPasses(|node.content|, |node.contentType|, |node.refs|, None, limits);
    EncodedHeaderPasses(|node.content|, |node.contentType|, |node.refs|, Some(|Encode(node)|), limits);
    EncodedBody(node, h);
  }

  // A header that passes is the encoder's, and its announced length is the canonical one.
  lemma CheckedHeader(header: bytes, declaredLength: Option<nat>, limits: Limits)
    requires CheckHeader(header, declaredLength, limits).Ok?
    ensures var (h, size) := CheckHeader(header, declaredLength, limits).value;
            && header == HeaderBytes(h.contentSize, h.contentTypeLength, h.refCount)
            && ValidateCanonicalNodeSize(h.contentSize, h.contentTypeLength, h.refCount, limits) == Ok(size)
            && size == CanonicalLength(h.contentSize, h.contentTypeLength, h.refCount)
            && (declaredLength.Some? ==> declaredLength.value == size)
  {
    HeaderIsCanonical(header);
  }

  lemma ParsedBody(b: bytes, h: Header)
    requires |b| == CanonicalLength(h.contentSize, h.contentTypeLength, h.refCount) && ParseBody(b, h).Ok?
    ensures var m := ParseBody(b, h).value;
            var prefix := PrefixLength(m.contentType, m.refs);
            && m.contentSize == h.contentSize == |b| - prefix && prefix <= |b|
            && |m.contentType| == h.contentTypeLength && |m.refs| == h.refCount
            && Printable(m.contentType) && RawHashes(m.refs)
            && b == b[..HEADER_SIZE] + m.contentType + Flatten(m.refs) + b[prefix..]
  {
    var typeEnd := HEADER_SIZE + h.contentTypeLength;
    var refsEnd := typeEnd + h.refCount * HASH_SIZE;
    SplitThenFlatten(b[typeEnd..refsEnd]);
    assert b == b[..HEADER_SIZE] + b[HEADER_SIZE..typeEnd] + b[typeEnd..refsEnd] + b[refsEnd..];
  }

  /** Every byte string the parser accepts as a complete node is the encoding of a legal node. */
  lemma ParseThenEncode(b: bytes, limits: Limits)
    requires ParseNode(b, limits).Ok?
    ensures var m := ParseNode(b, limits).value;
            var prefix := PrefixLength(m.contentType, m.refs);
            && prefix <= |b| && m.contentSize == |b| - prefix
            && var node := Node(m.contentType, m.refs, b[prefix..]);
               LegalNode(node, limits) && Encode(node) == b
  {
    CheckedHeader(b[..HEADER_SIZE], Some(|b|), limits);
    var (h, size) := CheckHeader(b[..HEADER_SIZE], Some(|b|), limits).value;
    ParsedBody(b, h);
  }

  /** The accepted byte strings are exactly the encodings of legal nodes. */
  lemma AcceptedIffEncoding(b: bytes, limits: Limits)
    ensures ParseNode(b, limits).Ok? <==> exists node :: LegalNode(node, limits) && Encode(node) == b
  {
    if ParseNode(b, limits).Ok? {
      ParseThenEncode(b, limits);
    }
    forall node | LegalNode(node, limits) && Encode(node) == b
      ensures ParseNode(b, limits).Ok?
    {
      EncodeThenParse(node, limits);
    }
  }

  /** Different legal nodes never share bytes, even when they are legal under different limits. */
  lemma EncodeIsInjective(a: Node, limitsA: Limits, b: Node, limitsB: Limits)
    requires LegalNode(a, limitsA) && LegalNode(b, limitsB) && Encode(a) == Encode(b)
    ensures a == b
  {
    LegalNodeIsLegalByDefault(a, limitsA);
    LegalNodeIsLegalByDefault(b, limitsB);
    EncodeThenParse(a, DEFAULT_LIMITS);
    EncodeThenParse(b, DEFAULT_LIMITS);
  }

  lemma {:induction false} LittleKeepsAtMost(value: nat, width: nat)
    ensures FromLittle(Little(value, width)) <= value
  {
    if width > 0 {
      LittleKeepsAtMost(value / 256, width - 1);
      assert Little(value, width)[1..] == Little(value / 256, width - 1);
    }
  }

  // A field that reads as a value in range was written for at least that value.
  lemma FieldAtLeast(value: nat, width: nat, written: nat)
    requires Little(written, width) == Little(value, width) && value < Pow256(width)
    ensures value <= written
  {
    LittleRoundTrip(value, width);
    LittleKeepsAtMost(written, width);
  }

  /** No unchecked node, however oversized its parts, shares its bytes with a legal one. */
  lemma LegalBytesDetermineTheNode(a: Node, b: Node)
    requires RawHashes(a.refs) && LegalNode(b, DEFAULT_LIMITS) && Encode(a) == Encode(b)
    ensures a == b
  {
    Powers();
    EncodedParts(a);
    EncodedParts(b);
    HeaderFields(|a.content|, |a.contentType|, |a.refs|);
    HeaderFields(|b.content|, |b.contentType|, |b.refs|);
    FieldAtLeast(|b.content|, 8, |a.content|);
    FieldAtLeast(|b.refs|, 4, |a.refs|);
    FieldAtLeast(|b.contentType|, 2, |a.contentType|);
    FlattenThenSplit(a.refs);
    FlattenThenSplit(b.refs);
  }

  // How much of a stored object prefix inspection reads.
  function InspectionLimit(limits: Limits): int {
    HEADER_SIZE + MAX_CONTENT_TYPE_LENGTH + limits.maxNodeRefs.GetOr(MAX_NODE_REFS) * HASH_SIZE
  }

  /** Inspecting only the bounded prefix gives the verdict the whole object would get. */
  lemma PrefixInspection(b: bytes, limits: Limits)
    requires ResolveLimit(limits.maxNodeRefs, MAX_NODE_REFS, true).Ok?
    ensures ParsePrefix(b[..Min(|b|, InspectionLimit(limits))], Some(|b|), limits) == ParseNode(b, limits)
  {
    var p := b[..Min(|b|, InspectionLimit(limits))];
    if |b| >= HEADER_SIZE {
      assert p[..HEADER_SIZE] == b[..HEADER_SIZE];
      var checked := CheckHeader(b[..HEADER_SIZE], Some(|b|), limits);
      if checked.Ok? {
        CheckedHeader(b[..HEADER_SIZE], Some(|b|), limits);
        SameBody(p, b, checked.value.0);
      }
    }
  }

  lemma SameBody(p: bytes, b: bytes, h: Header)
    requires HEADER_SIZE + h.contentTypeLength + h.refCount * HASH_SIZE <= |p| <= |b| && p == b[..|p|]
    ensures ParseBody(p, h) == ParseBody(b, h)
  {
    var typeEnd := HEADER_SIZE + h.contentTypeLength;
    var refsEnd := typeEnd + h.refCount * HASH_SIZE;
    assert p[HEADER_SIZE..typeEnd] == b[HEADER_SIZE..typeEnd];
    assert p[typeEnd..refsEnd] == b[typeEnd..refsEnd];
  }

  // ----- the buffer parser -----

  // Where the parts of an encoded node are found by a parser that trusts the header.
  ghost predicate CutAsEncoded(b: bytes, node: Node) {
    && |b| >= HEADER_SIZE
    && var h := DecodeHeader(b[..HEADER_SIZE]).value;
       var typeEnd := HEADER_SIZE + h.contentTypeLength;
       var refsEnd := typeEnd + h.refCount * HASH_SIZE;
       && |b| == refsEnd + h.contentSize
       && node == Node(b[HEADER_SIZE..typeEnd], SplitHashes(b[typeEnd..refsEnd]), b[refsEnd..])
  }

  lemma EncodingIsCut(b: bytes)
    ensures forall node :: LegalNode(node, DEFAULT_LIMITS) && Encode(node) == b ==> CutAsEncoded(b, node)
  {
    forall node | LegalNode(node, DEFAULT_LIMITS) && Encode(node) == b
      ensures CutAsEncoded(b, node)
    {
      EncodedParts(node);
      HeaderRoundTrip(|node.content|, |node.contentType|, |node.refs|);
      FlattenThenSplit(node.refs);
    }
  }

  /** It cuts exactly at the lengths the header announces, and fails on every other length. */
  method ParseNodeBytes(b: bytes) returns (r: Result<(bytes, Node), CodecError>)
    ensures r.Ok? <==>
            && |b| >= HEADER_SIZE
            && var h := DecodeHeader(b[..HEADER_SIZE]).value;
               |b| == CanonicalLength(h.contentSize, h.contentTypeLength, h.refCount)
    ensures r.Ok? ==>
              var (header, node) := r.value;
              var h := DecodeHeader(b[..HEADER_SIZE]).value;
              && header == b[..HEADER_SIZE]
              && |node.contentType| == h.contentTypeLength && |node.refs| == h.refCount
              && |node.content| == h.contentSize && RawHashes(node.refs)
              && header + node.contentType + Flatten(node.refs) + node.content == b
    ensures forall node :: LegalNode(node, DEFAULT_LIMITS) && Encode(node) == b ==> r.Ok? && r.value.1 == node
  {
    hide LegalNode, Encode;
    EncodingIsCut(b);
    if |b| < HEADER_SIZE {
      return Err(EndedEarly);
    }
    var header := b[..HEADER_SIZE];
    var h := DecodeHeader(header).value;
    if |b| != HEADER_SIZE + h.contentTypeLength + h.refCount * HASH_SIZE + h.contentSize {
      return Err(LengthMismatch);
    }
    var offset := HEADER_SIZE;
    var contentType := b[offset..offset + h.contentTypeLength];
    offset := offset + h.contentTypeLength;
    var childHashes: seq<Hash> := [];
    for i := 0 to h.refCount
      invariant |childHashes| == i && RawHashes(childHashes)
      invariant offset == HEADER_SIZE + h.contentTypeLength + i * HASH_SIZE
      invariant offset + (h.refCount - i) * HASH_SIZE + h.contentSize == |b|
      invariant header + contentType + Flatten(childHashes) == b[..offset]
    {
      FlattenAppend(childHashes, b[offset..offset + HASH_SIZE]);
      childHashes := childHashes + [b[offset..offset + HASH_SIZE]];
      offset := offset + HASH_SIZE;
    }
    FlattenThenSplit(childHashes);
    assert b[HEADER_SIZE + h.contentTypeLength..offset] == Flatten(childHashes);
    r := Ok((header, Node(contentType, childHashes, b[offset..offset + h.contentSize])));
  }
}
