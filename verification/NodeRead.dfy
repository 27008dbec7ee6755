// Reading a node's own content, whole or by a byte range, out of its stored
// canonical bytes.
module NodeRead {
  import opened Prelude
  import opened Codec

  datatype ByteRange = ByteRange(offset: nat, length: nat)

  datatype ReadError = RangeNotSatisfiable | NotFound

  // ----- the Range header -----

  predicate Digits(s: string) {
    forall i :: 0 <= i < |s| ==> '0' <= s[i] <= '9'
  }

  function Decimal(s: string): nat
    requires Digits(s)
  {
    if s == "" then 0 else Decimal(s[..|s| - 1]) * 10 + (s[|s| - 1] as int - '0' as int)
  }

  function DigitRun(s: string): (n: nat)
    ensures n <= |s| && Digits(s[..n]) && (n < |s| ==> !('0' <= s[n] <= '9'))
  {
    if s != "" && '0' <= s[0] <= '9' then
      var n := DigitRun(s[1..]);
      assert s[..n + 1] == [s[0]] + s[1..][..n];
      n + 1
    else 0
  }

  // The two groups of /^bytes=(\d*)-(\d*)$/.
  function MatchRange(header: string): (r: Option<(string, string)>)
    ensures r.Some? ==> Digits(r.value.0) && Digits(r.value.1)
  {
    if |header| < 6 || header[..6] != "bytes=" then None
    else
      var rest := header[6..];
      var n := DigitRun(rest);
      if n == |rest| || rest[n] != '-' || !Digits(rest[n + 1..]) then None
      else Some((rest[..n], rest[n + 1..]))
  }

  // Number(text) of a digit string: unsafe values are all refused by the caller.
  function SafeNumber(s: string): Option<nat>
    requires Digits(s)
  {
    if Decimal(s) <= MAX_SAFE_INTEGER then Some(Decimal(s)) else None
  }

  /** None is a request without a range; an unsatisfiable or malformed range is an error. */
  function ParseNodeContentRange(header: Option<string>, size: nat): Result<Option<ByteRange>, ReadError> {
    if header.None? then Ok(None)
    else
      var match0 := MatchRange(header.value);
      if match0.None? || (match0.value.0 == "" && match0.value.1 == "") || size == 0 then Err(RangeNotSatisfiable)
      else
        var (a, b) := match0.value;
        if (a != "" && SafeNumber(a).None?) || (b != "" && SafeNumber(b).None?) then Err(RangeNotSatisfiable)
        else if a == "" then
          var last := SafeNumber(b).value;
          if last == 0 then Err(RangeNotSatisfiable)
          else
            var length := Min(last, size);
            Ok(Some(ByteRange(size - length, length)))
        else
          var first := SafeNumber(a).value;
          if first >= size || (b != "" && SafeNumber(b).value < first) then Err(RangeNotSatisfiable)
          else
            var end := if b == "" then size - 1 else Min(SafeNumber(b).value, size - 1);
            Ok(Some(ByteRange(first, end - first + 1)))
  }

  // ----- the specification: section 14.1.2 of RFC 9110 -----

  datatype RangeSpec = IntRange(first: nat, last: Option<nat>) | SuffixRange(length: nat)

  // The header text spells the range specifier.
  ghost predicate Spells(header: string, spec: RangeSpec) {
    match spec
    case IntRange(first, last) =>
      exists a, b :: header == "bytes=" + a + "-" + b && Digits(a) && Digits(b)
                     && a != "" && Decimal(a) == first
                     && last == if b == "" then None else Some(Decimal(b))
    case SuffixRange(length) =>
      exists b :: header == "bytes=-" + b && Digits(b) && b != "" && Decimal(b) == length
  }

  // A last position below the first one makes the specifier invalid.
  predicate Valid(spec: RangeSpec) {
    match spec
    case IntRange(first, last) => last.Some? ==> first <= last.value
    case SuffixRange(_) => true
  }

  predicate InSafeRange(spec: RangeSpec) {
    match spec
    case IntRange(first, last) => first <= MAX_SAFE_INTEGER && last.GetOr(0) <= MAX_SAFE_INTEGER
    case SuffixRange(length) => length <= MAX_SAFE_INTEGER
  }

  // The positions of a representation of `size` bytes that the specifier selects.
  predicate Selects(spec: RangeSpec, size: nat, position: int) {
    && 0 <= position < size
    && match spec
       case IntRange(first, last) => first <= position && (last.Some? ==> position <= last.value)
       case SuffixRange(length) => position >= size - length
  }

  lemma MatchedText(header: string)
    requires MatchRange(header).Some?
    ensures var (a, b) := MatchRange(header).value;
            header == "bytes=" + a + "-" + b
            && (a == "" ==> header == "bytes=-" + b)
  {
    var rest := header[6..];
    var n := DigitRun(rest);
    assert rest == rest[..n] + "-" + rest[n + 1..];
    assert header == header[..6] + rest;
  }

  lemma TextMatches(a: string, b: string)
    requires Digits(a) && Digits(b)
    ensures MatchRange("bytes=" + a + "-" + b) == Some((a, b))
  {
    var header := "bytes=" + a + "-" + b;
    assert header[..6] == "bytes=";
    assert header[6..] == a + "-" + b;
    DigitRunOf(a, "-" + b);
    assert (a + ("-" + b))[|a|] == '-';
    assert header[6..] == a + ("-" + b);
    assert header[6..][|a| + 1..] == b && header[6..][..|a|] == a;
  }

  lemma {:induction false} DigitRunOf(a: string, rest: string)
    requires Digits(a) && rest != "" && !('0' <= rest[0] <= '9')
    ensures DigitRun(a + rest) == |a|
  {
    if a == "" {
      assert a + rest == rest;
    } else {
      DigitRunOf(a[1..], rest);
      assert (a + rest)[1..] == a[1..] + rest;
    }
  }

  // A specifier a header spells is the one its matched groups give.
  lemma SpelledGroups(header: string, spec: RangeSpec)
    requires Spells(header, spec)
    ensures MatchRange(header).Some?
    ensures var (a, b) := MatchRange(header).value;
            spec == if a == "" then SuffixRange(Decimal(b))
                    else IntRange(Decimal(a), if b == "" then None else Some(Decimal(b)))
    ensures MatchRange(header).value.0 != "" || MatchRange(header).value.1 != ""
  {
    match spec {
      case IntRange(first, last) =>
        var a, b :| header == "bytes=" + a + "-" + b && Digits(a) && Digits(b)
                    && a != "" && Decimal(a) == first
                    && last == if b == "" then None else Some(Decimal(b));
        TextMatches(a, b);
      case SuffixRange(length) =>
        var b :| header == "bytes=-" + b && Digits(b) && b != "" && Decimal(b) == length;
        TextMatches("", b);
        assert "bytes=" + "" + "-" + b == header;
    }
  }

  /** A range is served exactly when the header spells a valid specifier with safe numbers that selects something. */
  lemma RangeAccepted(header: string, size: nat)
    ensures ParseNodeContentRange(Some(header), size).Ok? <==>
            exists spec :: Spells(header, spec) && Valid(spec) && InSafeRange(spec)
                           && exists p :: Selects(spec, size, p)
  {
    var r := ParseNodeContentRange(Some(header), size);
    if r.Ok? {
      var (a, b) := MatchRange(header).value;
      var spec := if a == "" then SuffixRange(Decimal(b))
                  else IntRange(Decimal(a), if b == "" then None else Some(Decimal(b)));
      MatchedText(header);
      assert Spells(header, spec);
      assert Selects(spec, size, r.value.value.offset);
    }
    forall spec, p | Spells(header, spec) && Valid(spec) && InSafeRange(spec) && Selects(spec, size, p)
      ensures r.Ok?
    {
      SpelledGroups(header, spec);
    }
  }

  /** A served range lies inside the content and is exactly the set of positions the specifier selects. */
  lemma RangeIsExact(header: string, size: nat, spec: RangeSpec)
    requires ParseNodeContentRange(Some(header), size).Ok? && Spells(header, spec)
    ensures var r := ParseNodeContentRange(Some(header), size).value;
            && r.Some? && r.value.length > 0 && r.value.offset + r.value.length <= size
            && forall p :: Selects(spec, size, p) <==> r.value.offset <= p < r.value.offset + r.value.length
  {
    SpelledGroups(header, spec);
  }

  // ----- reading -----

  datatype ContentRead = ContentRead(body: bytes, range: Option<ByteRange>)

  // A ranged get of the stored object: the bytes that exist from `offset` on, at most `length` of them.
  function ReadCanonicalRange(stored: bytes, offset: nat, length: nat): bytes {
    if offset >= |stored| then [] else stored[offset..Min(offset + length, |stored|)]
  }

  // `row` is what the node and edge tables say; `stored` is the stored canonical object, if any.
  function ReadNodeContent(row: Option<Metadata>, stored: Option<bytes>, header: Option<string>)
    : Result<ContentRead, ReadError>
  {
    if row.None? then Err(NotFound)
    else
      var requested :- ParseNodeContentRange(header, row.value.contentSize);
      var logicalOffset := if requested.Some? then requested.value.offset else 0;
      var logicalLength := if requested.Some? then requested.value.length else row.value.contentSize;
      var physicalOffset := HEADER_SIZE + |row.value.contentType| + |row.value.refs| * HASH_SIZE;
      if stored.None? then Err(NotFound)
      else Ok(ContentRead(ReadCanonicalRange(stored.value, physicalOffset + logicalOffset, logicalLength), requested))
  }

  // The bytes of the object at these positions, as far as there are any.
  ghost predicate Piece(body: bytes, stored: bytes, from: nat, length: nat) {
    && |body| == Max(0, Min(length, |stored| - from))
    && forall i :: 0 <= i < |body| ==> body[i] == stored[from + i]
  }

  /**
   * Bytes are served exactly when there are a row, an object and a range that can be met, and then they are
   * the object's own, taken from behind its header, type and references; without row or object there is nothing.
   */
  lemma ServedFromRowAndObject(row: Option<Metadata>, stored: Option<bytes>, header: Option<string>)
    ensures var r := ReadNodeContent(row, stored, header);
            && (r == Err(NotFound) <==>
                row.None? || (stored.None? && ParseNodeContentRange(header, row.value.contentSize).Ok?))
            && (r == Err(RangeNotSatisfiable) <==>
                row.Some? && ParseNodeContentRange(header, row.value.contentSize).Err?)
            && (r.Ok? ==>
                  && r.value.range == ParseNodeContentRange(header, row.value.contentSize).value
                  && var behind := 24 + |row.value.contentType| + 32 * |row.value.refs|;
                     match r.value.range
                     case None => Piece(r.value.body, stored.value, behind, row.value.contentSize)
                     case Some(range) => Piece(r.value.body, stored.value, behind + range.offset, range.length))
  {
  }

  /** `bytes=first-last` with both ends inclusive, and a suffix counted from the end. */
  lemma RangeExamples()
    ensures ParseNodeContentRange(Some("bytes=10-19"), 100) == Ok(Some(ByteRange(10, 10)))
    ensures ParseNodeContentRange(Some("bytes=-30"), 100) == Ok(Some(ByteRange(70, 30)))
    ensures ParseNodeContentRange(Some("bytes=10-9"), 100) == Err(RangeNotSatisfiable)
  {
    hide MatchRange, Decimal, DigitRun;
    Decimals();
    TextMatches("10", "19");
    TextMatches("", "30");
    TextMatches("10", "9");
    assert "bytes=" + "10" + "-" + "19" == "bytes=10-19";
    assert "bytes=" + "" + "-" + "30" == "bytes=-30";
    assert "bytes=" + "10" + "-" + "9" == "bytes=10-9";
  }

  lemma Decimals()
    ensures Decimal("10") == 10 && Decimal("19") == 19 && Decimal("30") == 30 && Decimal("9") == 9
  {
    assert "10"[..1] == "1" && "19"[..1] == "1" && "30"[..1] == "3";
    assert Decimal("1") == 1 && Decimal("3") == 3;
  }

  // What a read of `content` must give for the requested range.
  ghost predicate Serves(r: Result<ContentRead, ReadError>, content: bytes, header: Option<string>) {
    match ParseNodeContentRange(header, |content|)
    case Err(_) => r.Err?
    case Ok(None) => r == Ok(ContentRead(content, None))
    case Ok(Some(range)) =>
      && range.offset + range.length <= |content|
      && r == Ok(ContentRead(content[range.offset..range.offset + range.length], Some(range)))
  }

  lemma ReadBehindPrefix(row: Metadata, stored: bytes, content: bytes, header: Option<string>)
    requires PrefixLength(row.contentType, row.refs) <= |stored|
    requires stored[PrefixLength(row.contentType, row.refs)..] == content && row.contentSize == |content|
    ensures Serves(ReadNodeContent(Some(row), Some(stored), header), content, header)
  {
    var prefix := PrefixLength(row.contentType, row.refs);
    match ParseNodeContentRange(header, |content|) {
      case Err(_) =>
      case Ok(None) =>
        SliceBehindPrefix(stored, prefix, 0, |content|);
        assert content[0..|content|] == content;
      case Ok(Some(range)) => SliceBehindPrefix(stored, prefix, range.offset, range.length);
    }
  }

  lemma SliceBehindPrefix(stored: bytes, prefix: nat, offset: nat, length: nat)
    requires prefix + offset + length <= |stored|
    ensures ReadCanonicalRange(stored, prefix + offset, length) == stored[prefix..][offset..offset + length]
  {
  }

  /** When the row describes the stored node, a read returns exactly the requested slice of its content. */
  lemma ReadsTheContent(node: Node, row: Metadata, header: Option<string>)
    requires LegalNode(node, DEFAULT_LIMITS) && ParseNode(Encode(node), DEFAULT_LIMITS) == Ok(row)
    ensures Serves(ReadNodeContent(Some(row), Some(Encode(node)), header), node.content, header)
  {
    EncodeThenParse(node, DEFAULT_LIMITS);
    ReadBehindPrefix(row, Encode(node), node.content, header);
  }
}
