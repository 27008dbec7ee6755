// The streaming side of the node format: a cursor that reads exact lengths out
// of arbitrarily cut chunks, the bounded-prefix parse on top of it, and the
// replay of the whole node. A source stream is the list of chunks its reader
// will deliver; empty chunks are allowed anywhere.
module CanonicalStream {
  import opened Prelude
  import opened Codec

  class StreamCursor {
    var reader: seq<bytes>
    var remainder: Option<bytes>

    // Everything the cursor has not consumed yet.
    ghost function Pending(): bytes
      reads this
    {
      remainder.GetOr([]) + Flatten(reader)
    }

    constructor (stream: seq<bytes>)
      ensures Pending() == Flatten(stream)
    {
      reader := stream;
      remainder := None;
    }

    // The remainder if there is one, else the reader's next chunk.
    method NextChunk() returns (chunk: Option<bytes>)
      modifies this
      ensures remainder == None
      ensures chunk.Some? ==> old(Pending()) == chunk.value + Pending()
      ensures chunk.Some? ==> |reader| < |old(reader)| || (reader == old(reader) && old(remainder).Some?)
      ensures chunk.None? ==> old(Pending()) == [] && Pending() == []
    {
      chunk := remainder;
      remainder := None;
      if chunk.None? && reader != [] {
        chunk := Some(reader[0]);
        reader := reader[1..];
      }
    }

    /** Takes exactly the next `length` bytes, however the stream is cut, or fails when fewer are left. */
    method ReadExactly(length: nat) returns (r: Result<bytes, CodecError>)
      modifies this
      ensures r.Ok? <==> |old(Pending())| >= length
      ensures r.Ok? ==> r.value == old(Pending())[..length] && Pending() == old(Pending())[length..]
      ensures r.Err? ==> r.error == EndedEarly
    {
      ghost var all := Pending();
      var result := new byte[length](i => 0);
      var offset := 0;
      while offset < length
        invariant 0 <= offset <= length
        invariant result[..offset] + Pending() == all
        decreases length - offset, |reader|, if remainder.Some? then 1 else 0
      {
        ghost var done := result[..offset];
        var chunk := NextChunk();
        if chunk.None? {
          return Err(EndedEarly);
        }
        var take := Min(|chunk.value|, length - offset);
        var head, tail := chunk.value[..take], chunk.value[take..];
        assert all == done + (chunk.value + Pending());
        Place(result, offset, head);
        if take < |chunk.value| {
          remainder := Some(tail);
        }
        Regroup(done, chunk.value, take, Pending(), if tail == [] then Pending() else Pending()[|tail|..]);
        offset := offset + take;
      }
      r := Ok(result[..]);
      assert result[..] == result[..offset] == all[..length];
    }
  }

  // Moving the cut between what is read and what is pending keeps the whole.
  lemma Regroup(done: bytes, chunk: bytes, take: nat, pending: bytes, rest: bytes)
    requires take <= |chunk| && pending == chunk[take..] + rest
    ensures (done + chunk[..take]) + pending == done + (chunk + rest)
  {
    assert chunk == chunk[..take] + chunk[take..];
  }

  datatype Event = Enqueue(chunk: bytes) | Close | Fail(error: CodecError)

  /** The replayed body: the parsed prefix, then whatever the cursor had left. */
  class ReplayStream {
    const expectedLength: nat
    var prefix: Option<bytes>
    var remainder: Option<bytes>
    var reader: seq<bytes>
    var emitted: nat

    ghost function Pending(): bytes
      reads this
    {
      prefix.GetOr([]) + remainder.GetOr([]) + Flatten(reader)
    }

    constructor (cursor: StreamCursor, prefix: bytes, expectedLength: nat)
      ensures Pending() == prefix + cursor.Pending()
      ensures emitted == 0 && this.expectedLength == expectedLength
    {
      this.expectedLength := expectedLength;
      this.prefix := Some(prefix);
      this.remainder := cursor.remainder;
      this.reader := cursor.reader;
      this.emitted := 0;
    }

    /** One pull: the next chunk, a close exactly at the expected length, or a failure. */
    method Pull() returns (event: Event)
      modifies this
      ensures event.Enqueue? ==>
                && old(Pending()) == event.chunk + Pending()
                && emitted == old(emitted) + |event.chunk| <= expectedLength
                && Steps() < old(Steps())
      ensures event.Close? ==> old(Pending()) == [] && old(emitted) == expectedLength
      ensures event.Fail? ==> old(emitted) + |old(Pending())| != expectedLength
    {
      var chunk: bytes;
      if prefix.Some? {
        chunk := prefix.value;
        prefix := None;
      } else if remainder.Some? {
        chunk := remainder.value;
        remainder := None;
      } else if reader == [] {
        return if emitted != expectedLength then Fail(LengthMismatch) else Close;
      } else {
        chunk := reader[0];
        reader := reader[1..];
      }
      assert old(Pending()) == chunk + Pending();
      emitted := emitted + |chunk|;
      if emitted > expectedLength {
        return Fail(LengthMismatch);
      }
      event := Enqueue(chunk);
    }

    function Steps(): nat
      reads this
    {
      (if prefix.Some? then 1 else 0) + (if remainder.Some? then 1 else 0) + |reader|
    }

    /** Draining succeeds exactly when the source has the expected length, and then yields the source. */
    method Drain() returns (r: Result<bytes, CodecError>)
      modifies this
      ensures r.Ok? <==> old(emitted) + |old(Pending())| == expectedLength
      ensures r.Ok? ==> r.value == old(Pending())
    {
      var drained: bytes := [];
      while true
        invariant drained + Pending() == old(Pending())
        invariant emitted == old(emitted) + |drained|
        decreases Steps()
      {
        var event := Pull();
        match event {
          case Enqueue(chunk) => drained := drained + chunk;
          case Close => return Ok(drained);
          case Fail(error) => return Err(error);
        }
      }
    }
  }

  datatype ParsedStream = ParsedStream(metadata: Metadata, canonicalSize: nat, body: ReplayStream)

  method SplitRefs(refsBytes: bytes) returns (refs: seq<Hash>)
    requires |refsBytes| % HASH_SIZE == 0
    ensures refs == SplitHashes(refsBytes)
  {
    refs := [];
    var offset := 0;
    while offset < |refsBytes|
      invariant 0 <= offset <= |refsBytes| && offset % HASH_SIZE == 0
      invariant refs + SplitHashes(refsBytes[offset..]) == SplitHashes(refsBytes)
    {
      assert refsBytes[offset..][HASH_SIZE..] == refsBytes[offset + HASH_SIZE..];
      assert refsBytes[offset..][..HASH_SIZE] == refsBytes[offset..offset + HASH_SIZE];
      refs := refs + [refsBytes[offset..offset + HASH_SIZE]];
      offset := offset + HASH_SIZE;
    }
  }

  // Everything after the header: the content type, the refs, and the prefix they form with it.
  method ReadBody(cursor: StreamCursor, header: bytes, h: Header, ghost all: bytes)
    returns (r: Result<(Metadata, bytes), CodecError>)
    requires |header| == HEADER_SIZE && all == header + cursor.Pending()
    modifies cursor
    ensures r.Ok? ==> ParseBody(all, h) == Ok(r.value.0) && all == r.value.1 + cursor.Pending()
    ensures r.Err? ==> ParseBody(all, h) == Err(r.error)
  {
    var typeEnd := HEADER_SIZE + h.contentTypeLength;
    var refsEnd := typeEnd + h.refCount * HASH_SIZE;
    var contentType :- cursor.ReadExactly(h.contentTypeLength);
    ReadSlice(all, header, contentType, cursor.Pending());
    if !Printable(contentType) {
      return Err(ContentTypeNotPrintable);
    }
    var _ :- ValidateContentType(contentType);
    ghost var rest := cursor.Pending();
    var refsBytes :- cursor.ReadExactly(h.refCount * HASH_SIZE);
    assert rest == refsBytes + cursor.Pending();
    ReadSlice(all, header + contentType, refsBytes, cursor.Pending());
    var refs := SplitRefs(refsBytes);
    r := Ok((Metadata(h.contentSize, contentType, refs), header + contentType + refsBytes));
  }

  lemma ReadSlice(all: bytes, before: bytes, part: bytes, after: bytes)
    requires all == before + (part + after)
    ensures all == before + part + after && all[|before|..|before| + |part|] == part
  {
  }

  /** The parse depends on the bytes alone, not on how the stream is cut, and hands back the whole node. */
  method ParseCanonicalNodeStream(source: seq<bytes>, declaredLength: Option<nat>, limits: Limits)
    returns (r: Result<ParsedStream, CodecError>)
    ensures r.Err? ==> ParsePrefix(Flatten(source), declaredLength, limits) == Err(r.error)
    ensures r.Ok? ==>
              && ParsePrefix(Flatten(source), declaredLength, limits) == Ok(r.value.metadata)
              && fresh(r.value.body)
              && r.value.body.Pending() == Flatten(source) && r.value.body.emitted == 0
              && r.value.canonicalSize == r.value.body.expectedLength
    ensures r.Ok? && declaredLength.Some? ==> r.value.canonicalSize == declaredLength.value
  {
    ghost var all := Flatten(source);
    var cursor := new StreamCursor(source);
    var header :- cursor.ReadExactly(HEADER_SIZE);
    assert header == all[..HEADER_SIZE] && all == header + cursor.Pending();
    var checked :- CheckHeader(header, declaredLength, limits);
    var (decoded, canonicalSize) := checked;
    var read :- ReadBody(cursor, header, decoded, all);
    var (metadata, prefix) := read;
    var body := new ReplayStream(cursor, prefix, canonicalSize);
    r := Ok(ParsedStream(metadata, canonicalSize, body));
  }
}
