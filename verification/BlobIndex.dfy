// The blob index: what an inner node of a chunked blob says about its children.
// Its wire form is the deterministic encoding of section 4.2.1 of RFC 8949
// (shortest heads, keys in byte order) of a map with the keys c, l, m, s and v.
module BlobIndex {
  import opened Prelude
  import opened Codec

  const FANOUT: nat := 256
  const CHUNK_BYTES: nat := 32 * 1024 * 1024

  datatype Index = Index(version: int, level: int, size: int, mediaType: bytes, children: seq<int>)

  datatype IndexError =
    | BadVersion
    | BadLevel
    | BadSize
    | BadMediaType
    | BadChildCount
    | BadChildSize
    | SizesOverflow
    | SizeMismatch
    | NotAMap
    | WrongFields
    | NotAnArray
    | NotCanonical

  // ----- validation -----

  function Total(sizes: seq<int>): int {
    if sizes == [] then 0 else Total(sizes[..|sizes| - 1]) + sizes[|sizes| - 1]
  }

  predicate LegalMediaType(mediaType: bytes) {
    1 <= |mediaType| <= 1024 && Printable(mediaType)
  }

  predicate ValidIndex(v: Index) {
    && v.version == 1
    && 0 <= v.level <= MAX_SAFE_INTEGER
    && 0 < v.size <= MAX_SAFE_INTEGER
    && LegalMediaType(v.mediaType)
    && 1 <= |v.children| <= FANOUT
    && (forall i :: 0 <= i < |v.children| ==> v.children[i] > 0)
    && Total(v.children) == v.size
  }

  // Positive sizes only grow a total.
  lemma {:induction false} TotalOfPrefix(sizes: seq<int>, n: nat)
    requires n <= |sizes| && forall i :: 0 <= i < |sizes| ==> sizes[i] > 0
    ensures n <= Total(sizes[..n]) <= Total(sizes)
    ensures forall i :: n - 1 <= i < n && i >= 0 ==> sizes[i] <= Total(sizes)
    decreases |sizes|
  {
    if n < |sizes| {
      TotalOfPrefix(sizes[..|sizes| - 1], n);
      assert sizes[..|sizes| - 1][..n] == sizes[..n];
    } else if n > 0 {
      TotalOfPrefix(sizes[..n - 1], n - 1);
      assert sizes[..n] == sizes;
      assert sizes[..n - 1][..n - 1] == sizes[..n - 1];
    }
  }

  /** The running total with its early exits accepts exactly the indexes whose sizes add up. */
  method ValidateBlobIndex(v: Index) returns (error: Option<IndexError>)
    ensures error.None? <==> ValidIndex(v)
  {
    if v.version != 1 {
      return Some(BadVersion);
    }
    if v.level < 0 || v.level > MAX_SAFE_INTEGER {
      return Some(BadLevel);
    }
    if v.size <= 0 || v.size > MAX_SAFE_INTEGER {
      return Some(BadSize);
    }
    if !LegalMediaType(v.mediaType) {
      return Some(BadMediaType);
    }
    if |v.children| < 1 || |v.children| > FANOUT {
      return Some(BadChildCount);
    }
    var total := 0;
    for i := 0 to |v.children|
      invariant total == Total(v.children[..i])
      invariant forall j :: 0 <= j < i ==> v.children[j] > 0
    {
      var size := v.children[i];
      assert v.children[..i + 1][..i] == v.children[..i];
      if ValidIndex(v) {
        TotalOfPrefix(v.children, i + 1);
      }
      if size <= 0 || size > MAX_SAFE_INTEGER {
        return Some(BadChildSize);
      }
      total := total + size;
      if total > MAX_SAFE_INTEGER {
        return Some(SizesOverflow);
      }
    }
    assert v.children[..|v.children|] == v.children;
    error := if total != v.size then Some(SizeMismatch) else None;
  }

  // ----- encoding -----

  function Big(value: nat, width: nat): (r: bytes)
    ensures |r| == width
  {
    if width == 0 then [] else Big(value / 256, width - 1) + [value % 256]
  }

  function FromBig(b: bytes): nat {
    if b == [] then 0 else FromBig(b[..|b| - 1]) * 256 + b[|b| - 1]
  }

  lemma {:induction false} BigRoundTrip(value: nat, width: nat)
    requires value < Pow256(width)
    ensures FromBig(Big(value, width)) == value
  {
    if width > 0 {
      assert value / 256 < Pow256(width - 1);
      BigRoundTrip(value / 256, width - 1);
      assert Big(value, width)[..width - 1] == Big(value / 256, width - 1);
    }
  }

  // How many bytes follow a head's first byte, for the shortest form of `n`.
  function Width(n: nat): nat {
    if n < 24 then 0 else if n < 0x100 then 1 else if n < 0x1_0000 then 2 else if n < 0x1_0000_0000 then 4 else 8
  }

  function Head(major: nat, n: nat): (r: bytes)
    requires major < 8
    ensures 1 <= |r| <= 9
  {
    match Width(n)
    case 0 => [32 * major + n]
    case 1 => [32 * major + 24] + Big(n, 1)
    case 2 => [32 * major + 25] + Big(n, 2)
    case 4 => [32 * major + 26] + Big(n, 4)
    case _ => [32 * major + 27] + Big(n, 8)
  }

  function Text(text: bytes): bytes {
    Head(3, |text|) + text
  }

  function Numbers(ns: seq<int>): bytes
    requires forall i :: 0 <= i < |ns| ==> ns[i] >= 0
  {
    if ns == [] then [] else Head(0, ns[0]) + Numbers(ns[1..])
  }

  const C: bytes := [0x63]
  const L: bytes := [0x6c]
  const M: bytes := [0x6d]
  const S: bytes := [0x73]
  const V: bytes := [0x76]

  function Fields(v: Index): seq<(bytes, bytes)>
    requires ValidIndex(v)
  {
    [(C, Head(4, |v.children|) + Numbers(v.children)), (L, Head(0, v.level)), (M, Text(v.mediaType)),
     (S, Head(0, v.size)), (V, Head(0, v.version))]
  }

  function Entries(fields: seq<(bytes, bytes)>): bytes {
    if fields == [] then [] else Text(fields[0].0) + fields[0].1 + Entries(fields[1..])
  }

  function Wire(v: Index): bytes
    requires ValidIndex(v)
  {
    Head(5, 5) + Entries(Fields(v))
  }

  // ----- decoding -----

  datatype Item = UInt(n: nat) | TextItem(text: bytes) | ArrayItem(items: seq<Item>) | MapItem(entries: seq<(bytes, Item)>)

  // Any head of definite length, shortest or not: major type, argument, the rest.
  function ReadHead(b: bytes): (r: Option<(nat, nat, bytes)>)
    ensures r.Some? ==> |r.value.2| < |b|
  {
    if b == [] then None
    else
      var info := b[0] % 32;
      if info < 24 then Some((b[0] / 32, info, b[1..]))
      else
        var width := if info == 24 then 1 else if info == 25 then 2 else if info == 26 then 4 else 8;
        if info > 27 || |b| < 1 + width then None
        else Some((b[0] / 32, FromBig(b[1..1 + width]), b[1 + width..]))
  }

  // One data item and the rest. Other major types cannot occur in an index and stop the parse.
  function ParseItem(b: bytes): (r: Option<(Item, bytes)>)
    ensures r.Some? ==> |r.value.1| < |b|
    decreases |b|, 0
  {
    match ReadHead(b)
    case None => None
    case Some((major, n, rest)) =>
      if major == 0 then Some((UInt(n), rest))
      else if major == 3 then
        if |rest| < n then None else Some((TextItem(rest[..n]), rest[n..]))
      else if major == 4 then
        match ParseItems(rest, n)
        case None => None
        case Some((items, after)) => Some((ArrayItem(items), after))
      else if major == 5 then
        match ParseEntries(rest, n)
        case None => None
        case Some((entries, after)) => Some((MapItem(entries), after))
      else None
  }

  function ParseItems(b: bytes, n: nat): (r: Option<(seq<Item>, bytes)>)
    ensures r.Some? ==> |r.value.1| <= |b|
    decreases |b|, 1, n
  {
    if n == 0 then Some(([], b))
    else
      match ParseItem(b)
      case None => None
      case Some((item, rest)) =>
        match ParseItems(rest, n - 1)
        case None => None
        case Some((items, after)) => Some(([item] + items, after))
  }

  function ParseEntries(b: bytes, n: nat): (r: Option<(seq<(bytes, Item)>, bytes)>)
    ensures r.Some? ==> |r.value.1| <= |b|
    decreases |b|, 1, n
  {
    if n == 0 then Some(([], b))
    else
      match ParseItem(b)
      case Some((TextItem(key), rest)) =>
        (match ParseItem(rest)
         case None => None
         case Some((item, next)) =>
           match ParseEntries(next, n - 1)
           case None => None
           case Some((entries, after)) => Some(([(key, item)] + entries, after)))
      case _ => None
  }

  // The last entry with the key, as an object built entry by entry keeps it.
  function Lookup(entries: seq<(bytes, Item)>, key: bytes): Option<Item> {
    if entries == [] then None
    else
      var (k, item) := entries[|entries| - 1];
      if k == key then Some(item) else Lookup(entries[..|entries| - 1], key)
  }

  function NumberOf(item: Item): int {
    if item.UInt? then item.n else -1
  }

  function NumbersOf(items: seq<Item>): (r: seq<int>)
    ensures |r| == |items|
  {
    seq(|items|, i requires 0 <= i < |items| => NumberOf(items[i]))
  }

  // What the decoded object says, whatever its types.
  function Read(entries: seq<(bytes, Item)>): Result<Index, IndexError> {
    if (set e | e in entries :: e.0) != {C, L, M, S, V} then Err(WrongFields)
    else
      match (Lookup(entries, C), Lookup(entries, L), Lookup(entries, M), Lookup(entries, S), Lookup(entries, V))
      case (Some(ArrayItem(items)), Some(level), Some(TextItem(mediaType)), Some(size), Some(version)) =>
        Ok(Index(NumberOf(version), NumberOf(level), NumberOf(size), mediaType, NumbersOf(items)))
      case (Some(ArrayItem(_)), _, _, _, _) => Err(BadMediaType)
      case _ => Err(NotAnArray)
  }

  function DecodeBlobIndex(b: bytes): Result<Index, IndexError> {
    match ParseItem(b)
    case Some((MapItem(entries), rest)) =>
      if rest != [] then Err(NotAMap)
      else
        var v :- Read(entries);
        if !ValidIndex(v) then Err(SizeMismatch)
        else if Wire(v) != b then Err(NotCanonical)
        else Ok(v)
    case _ => Err(NotAMap)
  }

  // ----- round trip -----

  lemma HeadReads(major: nat, n: nat, rest: bytes)
    requires major < 8 && n < Pow256(8)
    ensures ReadHead(Head(major, n) + rest) == Some((major, n, rest))
  {
    var b := Head(major, n) + rest;
    var width := Width(n);
    assert Pow256(1) == 256 && Pow256(2) == 256 * Pow256(1);
    Powers();
    if width > 0 {
      BigRoundTrip(n, width);
      assert b[1..1 + width] == Big(n, width);
    }
    assert b[1 + width..] == rest;
  }

  function NumberItems(ns: seq<int>): (r: seq<Item>)
    requires forall i :: 0 <= i < |ns| ==> ns[i] >= 0
    ensures |r| == |ns| && NumbersOf(r) == ns
  {
    seq(|ns|, i requires 0 <= i < |ns| => UInt(ns[i]))
  }

  lemma {:induction false} NumbersParse(ns: seq<int>, rest: bytes)
    requires forall i :: 0 <= i < |ns| ==> 0 <= ns[i] < Pow256(8)
    ensures ParseItems(Numbers(ns) + rest, |ns|) == Some((NumberItems(ns), rest))
  {
    if ns == [] {
      assert Numbers(ns) + rest == rest;
    } else {
      var after := Numbers(ns[1..]) + rest;
      assert Numbers(ns) + rest == Head(0, ns[0]) + after;
      HeadReads(0, ns[0], after);
      NumbersParse(ns[1..], rest);
      assert NumberItems(ns) == [UInt(ns[0])] + NumberItems(ns[1..]);
    }
  }

  lemma TextParses(text: bytes, rest: bytes)
    requires |text| < Pow256(8)
    ensures ParseItem(Text(text) + rest) == Some((TextItem(text), rest))
  {
    assert Text(text) + rest == Head(3, |text|) + (text + rest);
    HeadReads(3, |text|, text + rest);
    assert (text + rest)[..|text|] == text && (text + rest)[|text|..] == rest;
  }

  // A field's encoding parses to its item, whatever follows.
  ghost predicate ParsesTo(encoding: bytes, item: Item) {
    forall rest :: ParseItem(encoding + rest) == Some((item, rest))
  }

  function Keyed(fields: seq<(bytes, bytes)>, items: seq<Item>): seq<(bytes, Item)>
    requires |items| == |fields|
  {
    seq(|fields|, i requires 0 <= i < |fields| => (fields[i].0, items[i]))
  }

  lemma {:induction false} EntriesParse(fields: seq<(bytes, bytes)>, items: seq<Item>, rest: bytes)
    requires |items| == |fields|
    requires forall i :: 0 <= i < |fields| ==> |fields[i].0| < Pow256(8) && ParsesTo(fields[i].1, items[i])
    ensures ParseEntries(Entries(fields) + rest, |fields|)
            == Some((Keyed(fields, items), rest))
    decreases |fields|
  {
    hide ParseItem, ParseEntries, Text;
    if fields == [] {
      assert Entries(fields) + rest == rest;
      NoEntries(rest);
      assert Keyed(fields, items) == [];
    } else {
      var (key, encoding) := fields[0];
      var next := Entries(fields[1..]) + rest;
      assert Entries(fields) + rest == Text(key) + (encoding + next);
      TextParses(key, encoding + next);
      assert ParsesTo(encoding, items[0]);
      EntriesParse(fields[1..], items[1..], rest);
      EntryParses(Entries(fields) + rest, key, encoding + next, items[0], next, |fields| - 1);
      assert Keyed(fields, items) == [(key, items[0])] + Keyed(fields[1..], items[1..]);
    }
  }

  lemma NoEntries(b: bytes)
    ensures ParseEntries(b, 0) == Some(([], b))
  {
  }

  lemma EntryParses(b: bytes, key: bytes, middle: bytes, item: Item, next: bytes, n: nat)
    requires ParseItem(b) == Some((TextItem(key), middle)) && ParseItem(middle) == Some((item, next))
    requires ParseEntries(next, n).Some?
    ensures var (entries, after) := ParseEntries(next, n).value;
            ParseEntries(b, n + 1) == Some(([(key, item)] + entries, after))
  {
    hide ParseItem;
  }

  lemma NumberParses(n: nat)
    requires n < Pow256(8)
    ensures ParsesTo(Head(0, n), UInt(n))
  {
    forall rest
      ensures ParseItem(Head(0, n) + rest) == Some((UInt(n), rest))
    {
      HeadReads(0, n, rest);
    }
  }

  lemma ChildrenParse(ns: seq<int>)
    requires |ns| <= FANOUT && forall i :: 0 <= i < |ns| ==> 0 <= ns[i] < Pow256(8)
    ensures ParsesTo(Head(4, |ns|) + Numbers(ns), ArrayItem(NumberItems(ns)))
  {
    hide Head, Numbers, ReadHead, ParseItems, NumberItems;
    Powers();
    forall rest
      ensures ParseItem(Head(4, |ns|) + Numbers(ns) + rest) == Some((ArrayItem(NumberItems(ns)), rest))
    {
      assert Head(4, |ns|) + Numbers(ns) + rest == Head(4, |ns|) + (Numbers(ns) + rest);
      HeadReads(4, |ns|, Numbers(ns) + rest);
      NumbersParse(ns, rest);
    }
  }

  lemma ShortMediaType(mediaType: bytes)
    requires LegalMediaType(mediaType)
    ensures ParsesTo(Text(mediaType), TextItem(mediaType))
  {
    Powers();
    forall rest
      ensures ParseItem(Text(mediaType) + rest) == Some((TextItem(mediaType), rest))
    {
      TextParses(mediaType, rest);
    }
  }

  function ItemsOf(v: Index): seq<(bytes, Item)>
    requires ValidIndex(v)
  {
    [(C, ArrayItem(NumberItems(v.children))), (L, UInt(v.level)), (M, TextItem(v.mediaType)), (S, UInt(v.size)),
     (V, UInt(v.version))]
  }

  lemma SizesAreSafe(v: Index)
    requires ValidIndex(v)
    ensures forall i :: 0 <= i < |v.children| ==> v.children[i] <= MAX_SAFE_INTEGER < Pow256(8)
  {
    Powers();
    forall i | 0 <= i < |v.children|
      ensures v.children[i] <= MAX_SAFE_INTEGER
    {
      TotalOfPrefix(v.children, i + 1);
    }
  }

  lemma WireParses(v: Index)
    requires ValidIndex(v)
    ensures ParseItem(Wire(v)) == Some((MapItem(ItemsOf(v)), []))
  {
    hide ParseItem, Head, Numbers, Text;
    var fields, items := Fields(v), ItemsOf(v);
    Powers();
    SizesAreSafe(v);
    ChildrenParse(v.children);
    NumberParses(v.level);
    ShortMediaType(v.mediaType);
    NumberParses(v.size);
    NumberParses(v.version);
    var values := [items[0].1, items[1].1, items[2].1, items[3].1, items[4].1];
    EntriesParse(fields, values, []);
    assert Keyed(fields, values) == items;
    MapParses(Entries(fields), items);
  }

  lemma MapParses(body: bytes, items: seq<(bytes, Item)>)
    requires |items| == 5 && ParseEntries(body + [], 5) == Some((items, []))
    ensures ParseItem(Head(5, 5) + body) == Some((MapItem(items), []))
  {
    Powers();
    assert body + [] == body;
    HeadReads(5, 5, body);
  }

  lemma ItemsRead(v: Index)
    requires ValidIndex(v)
    ensures Read(ItemsOf(v)) == Ok(v)
  {
    var e := ItemsOf(v);
    assert e[..4] == [e[0], e[1], e[2], e[3]] && e[..4][..3] == [e[0], e[1], e[2]];
    assert e[..4][..3][..2] == [e[0], e[1]] && e[..4][..3][..2][..1] == [e[0]];
    assert Lookup(e, V) == Some(e[4].1);
    assert Lookup(e, S) == Lookup(e[..4], S) == Some(e[3].1);
    assert Lookup(e, M) == Lookup(e[..4], M) == Lookup(e[..4][..3], M) == Some(e[2].1);
    assert Lookup(e, L) == Lookup(e[..4], L) == Lookup(e[..4][..3], L) == Lookup(e[..4][..3][..2], L) == Some(e[1].1);
    assert Lookup(e, C) == Lookup(e[..4], C) == Lookup(e[..4][..3], C) == Lookup(e[..4][..3][..2], C)
        == Lookup(e[..4][..3][..2][..1], C) == Some(e[0].1);
    assert (set x | x in e :: x.0) == {C, L, M, S, V} by {
      assert e[0] in e && e[1] in e && e[2] in e && e[3] in e && e[4] in e;
    }
  }

  /** A byte string decodes to an index exactly when it is that valid index's encoding. */
  lemma DecodesIffEncoded(b: bytes, v: Index)
    ensures DecodeBlobIndex(b) == Ok(v) <==> ValidIndex(v) && b == Wire(v)
  {
    if ValidIndex(v) && b == Wire(v) {
      WireParses(v);
      ItemsRead(v);
    }
  }

  /** So two indexes never share an encoding. */
  lemma WireIsInjective(a: Index, b: Index)
    requires ValidIndex(a) && ValidIndex(b) && Wire(a) == Wire(b)
    ensures a == b
  {
    DecodesIffEncoded(Wire(a), a);
    DecodesIffEncoded(Wire(a), b);
  }

  lemma {:induction false} NumbersAreShort(ns: seq<int>)
    requires forall i :: 0 <= i < |ns| ==> ns[i] >= 0
    ensures |Numbers(ns)| <= 9 * |ns|
  {
    if ns != [] {
      NumbersAreShort(ns[1..]);
    }
  }

  /** An index always fits into one node. */
  lemma WireIsShort(v: Index)
    requires ValidIndex(v)
    ensures |Wire(v)| <= 4096
  {
    hide Head;
    var f := Fields(v);
    NumbersAreShort(v.children);
    assert |f[0].1| <= 9 + 9 * 256 && |f[2].1| <= 9 + 1024;
    assert Entries(f) == Text(C) + f[0].1 + Entries(f[1..]);
    assert Entries(f[1..]) == Text(L) + f[1].1 + Entries(f[2..]);
    assert Entries(f[2..]) == Text(M) + f[2].1 + Entries(f[3..]);
    assert Entries(f[3..]) == Text(S) + f[3].1 + Entries(f[4..]);
    assert Entries(f[4..]) == Text(V) + f[4].1 + Entries(f[5..]);
  }
}
