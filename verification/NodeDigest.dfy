// The digest of a node and the hexadecimal spelling of hashes.
module NodeDigest {
  import opened Prelude
  import opened Codec
  import opened Order

  type Text = string

  /** The digest is taken over exactly the canonical bytes of the node. */
  method ComputeNodeDigest(digest: Digest, contentType: bytes, childHashes: seq<Hash>, content: bytes)
    returns (hash: Hash)
    requires RawHashes(childHashes)
    ensures hash == digest(Encode(Node(contentType, childHashes, content)))
  {
    var header := EncodeHeader(|content|, contentType, |childHashes|);
    var canonical := ConcatenateNodeBytes(header[..], contentType, childHashes, content);
    hash := digest(canonical[..]);
  }

  // ----- spelling -----

  function HexDigit(n: nat): char
    requires n < 16
  {
    if n < 10 then '0' + n as char else 'a' + (n - 10) as char
  }

  // Lower-case digits, two for each byte.
  function Spell(hash: bytes): (text: Text)
    ensures |text| == 2 * |hash|
  {
    if hash == [] then [] else [HexDigit(hash[0] / 16), HexDigit(hash[0] % 16)] + Spell(hash[1..])
  }

  function HashToHex(hash: Hash): (r: Option<Text>)
    ensures r.Some? <==> |hash| == 32
    ensures r.Some? ==> |r.value| == 64
  {
    if |hash| != HASH_SIZE then None else Some(Spell(hash))
  }

  predicate LowerHex(c: char) {
    '0' <= c <= '9' || 'a' <= c <= 'f'
  }

  predicate ValidHash(text: Text) {
    |text| == 2 * HASH_SIZE && forall i :: 0 <= i < |text| ==> LowerHex(text[i])
  }

  function DigitValue(c: char): Option<nat> {
    if '0' <= c <= '9' then Some(c as nat - '0' as nat)
    else if 'a' <= c <= 'f' then Some(c as nat - 'a' as nat + 10)
    else if 'A' <= c <= 'F' then Some(c as nat - 'A' as nat + 10)
    else None
  }

  predicate IsSpace(c: char) {
    var code := c as int;
    code in {0x9, 0xa, 0xb, 0xc, 0xd, 0x20, 0xa0, 0x1680, 0x2028, 0x2029, 0x202f, 0x205f, 0x3000, 0xfeff}
    || 0x2000 <= code <= 0x200a
  }

  // parseInt(two characters, 16) stored into a byte: a leading space or sign is skipped, the parse
  // stops at the first other character, nothing parsed is stored as zero, a negative value wraps.
  function ParseHexByte(a: char, b: char): byte {
    match (DigitValue(a), DigitValue(b))
    case (Some(x), Some(y)) => 16 * x + y
    case (Some(x), None) => x
    case (None, Some(y)) => if IsSpace(a) || a == '+' then y else if a == '-' && y > 0 then 256 - y else 0
    case (None, None) => 0
  }

  ghost const LOWER := "0123456789abcdef"
  ghost const UPPER := "0123456789ABCDEF"

  // White space and line terminators, sections 12.2 and 12.3 of ECMA-262.
  ghost const SPACES: set<int> := {
    9, 10, 11, 12, 13, 32, 160, 5760, 8192, 8193, 8194, 8195, 8196, 8197, 8198, 8199, 8200, 8201, 8202, 8232, 8233,
    8239, 8287, 12288, 65279}

  ghost predicate IsDigit(c: char, value: nat) {
    value < 16 && (c == LOWER[value] || c == UPPER[value])
  }

  /** What a pair of characters is read as: two digits, one digit with something that ends or precedes it, or nothing. */
  lemma PairIsParsed(a: char, b: char, x: nat, y: nat)
    ensures IsDigit(a, x) && IsDigit(b, y) ==> ParseHexByte(a, b) == 16 * x + y
    ensures IsDigit(a, x) && (forall v :: !IsDigit(b, v)) ==> ParseHexByte(a, b) == x
    ensures IsDigit(b, y) && (a as int in SPACES || a == '+') ==> ParseHexByte(a, b) == y
    ensures IsDigit(b, y) && a == '-' ==> ParseHexByte(a, b) == (256 - y) % 256
    ensures IsDigit(b, y) && a as int !in SPACES && a != '+' && a != '-' && (forall v :: !IsDigit(a, v)) ==>
              ParseHexByte(a, b) == 0
    ensures (forall v :: !IsDigit(a, v) && !IsDigit(b, v)) ==> ParseHexByte(a, b) == 0
  {
    DigitIs(a, x);
    DigitIs(b, y);
    SpaceIs(a);
    if DigitValue(a).Some? {
      DigitIs(a, DigitValue(a).value);
    }
    if DigitValue(b).Some? {
      DigitIs(b, DigitValue(b).value);
    }
  }

  lemma DigitIs(c: char, value: nat)
    ensures DigitValue(c) == Some(value) <==> IsDigit(c, value)
  {
  }

  lemma SpaceIs(c: char)
    ensures IsSpace(c) <==> c as int in SPACES
  {
  }

  // The bytes the pairs of characters parse to.
  function Unspell(text: Text): (hash: bytes)
    requires |text| % 2 == 0
    ensures 2 * |hash| == |text|
  {
    if text == [] then [] else [ParseHexByte(text[0], text[1])] + Unspell(text[2..])
  }

  lemma {:induction false} UnspellAt(text: Text, i: nat)
    requires |text| % 2 == 0 && 2 * i + 1 < |text|
    ensures Unspell(text)[i] == ParseHexByte(text[2 * i], text[2 * i + 1])
  {
    if i > 0 {
      UnspellAt(text[2..], i - 1);
    }
  }

  /** Fills the hash pair by pair; only the length of the text is checked. */
  method HexToHash(text: Text) returns (hash: Option<Hash>)
    ensures hash.Some? <==> |text| == 2 * HASH_SIZE
    ensures hash.Some? ==> hash.value == Unspell(text)
  {
    if |text| != 2 * HASH_SIZE {
      return None;
    }
    var result := new byte[HASH_SIZE](i => 0);
    for i := 0 to HASH_SIZE
      invariant forall k :: 0 <= k < i ==> result[k] == Unspell(text)[k]
    {
      UnspellAt(text, i);
      result[i] := ParseHexByte(text[i * 2], text[i * 2 + 1]);
    }
    assert result[..] == Unspell(text);
    hash := Some(result[..]);
  }

  lemma DigitRoundTrip(n: nat)
    requires n < 16
    ensures LowerHex(HexDigit(n)) && DigitValue(HexDigit(n)) == Some(n)
  {
  }

  lemma LowerDigit(c: char)
    requires LowerHex(c)
    ensures DigitValue(c).Some? && DigitValue(c).value < 16 && HexDigit(DigitValue(c).value) == c
  {
  }

  /** Spelling a hash and reading it back is the identity, and the spelling is lower-case hexadecimal. */
  lemma {:induction false} SpellThenRead(hash: bytes)
    ensures Unspell(Spell(hash)) == hash
    ensures forall i :: 0 <= i < |Spell(hash)| ==> LowerHex(Spell(hash)[i])
  {
    if hash != [] {
      SpellThenRead(hash[1..]);
      DigitRoundTrip(hash[0] / 16);
      DigitRoundTrip(hash[0] % 16);
      assert Spell(hash)[2..] == Spell(hash[1..]);
    }
  }

  lemma {:induction false} ReadThenSpell(text: Text)
    requires |text| % 2 == 0 && forall i :: 0 <= i < |text| ==> LowerHex(text[i])
    ensures Spell(Unspell(text)) == text
  {
    if text != [] {
      ReadThenSpell(text[2..]);
      LowerDigit(text[0]);
      LowerDigit(text[1]);
      var b := ParseHexByte(text[0], text[1]);
      assert b / 16 == DigitValue(text[0]).value && b % 16 == DigitValue(text[1]).value;
      assert text == [text[0], text[1]] + text[2..];
    }
  }

  /** A text of the right length is the spelling of what it reads as exactly when it is a valid hash. */
  lemma SpellingIsCanonical(text: Text)
    requires |text| == 2 * HASH_SIZE
    ensures HashToHex(Unspell(text)) == Some(text) <==> ValidHash(text)
  {
    if ValidHash(text) {
      ReadThenSpell(text);
    }
    SpellThenRead(Unspell(text));
  }

  function CharByte(c: char): byte
    requires LowerHex(c)
  {
    c as int
  }

  // Characters of a spelling as the bytes they are stored as.
  function AsBytes(text: Text): (r: bytes)
    requires forall i :: 0 <= i < |text| ==> LowerHex(text[i])
    ensures |r| == |text|
  {
    seq(|text|, i requires 0 <= i < |text| => CharByte(text[i]))
  }

  lemma DigitOrder(m: nat, n: nat)
    requires m < 16 && n < 16
    ensures HexDigit(m) as int < HexDigit(n) as int <==> m < n
    ensures HexDigit(m) == HexDigit(n) <==> m == n
  {
  }

  /** Spellings are ordered as the hashes they spell. */
  lemma {:induction false} SpellingKeepsOrder(a: bytes, b: bytes)
    requires |a| == |b|
    requires forall i :: 0 <= i < |Spell(a)| ==> LowerHex(Spell(a)[i])
    requires forall i :: 0 <= i < |Spell(b)| ==> LowerHex(Spell(b)[i])
    ensures Less(AsBytes(Spell(a)), AsBytes(Spell(b))) <==> Less(a, b)
  {
    if a != [] {
      var x, y := AsBytes(Spell(a)), AsBytes(Spell(b));
      assert Spell(a)[2..] == Spell(a[1..]) && Spell(b)[2..] == Spell(b[1..]);
      assert x[1..][1..] == AsBytes(Spell(a[1..])) && y[1..][1..] == AsBytes(Spell(b[1..]));
      SpellingKeepsOrder(a[1..], b[1..]);
      DigitOrder(a[0] / 16, b[0] / 16);
      DigitOrder(a[0] % 16, b[0] % 16);
      assert Less(x, y) <==> x[0] < y[0] || (x[0] == y[0] && Less(x[1..], y[1..]));
      assert Less(x[1..], y[1..]) <==> x[1] < y[1] || (x[1] == y[1] && Less(x[1..][1..], y[1..][1..]));
    }
  }
}
