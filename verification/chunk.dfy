/** A PNG chunk (section 3.2 of the PNG Specification, version 1.2): a
    big-endian length, a type code, the data and a CRC over type and data.
    Chunks are values: nothing changes one after it is built. */
module Chunks {
  import opened Bytes
  import opened Errors
  import ChunkTypes
  import Crc32
  import Utf8
  import opened BufReaders

  /** The accessors `length`, `chunk_type`, `data` and `crc` are the fields. */
  datatype Chunk = Chunk(length: u32, chunkType: ChunkTypes.ChunkType, data: seq<u8>, crc: u32) {

    /** Length, type, data and CRC, in that order, with length and CRC big-endian. */
    function AsBytes(): (b: seq<u8>)
      ensures |b| == 12 + |data|
      ensures b[..4] == ToBE32(length) && b[4..8] == chunkType.inner
      ensures b[8..8 + |data|] == data && b[8 + |data|..] == ToBE32(crc)
    {
      ToBE32(length) + chunkType.inner + data + ToBE32(crc)
    }

    /** The data as text, when it is well-formed UTF-8. */
    function DataAsString(): (r: Result<seq<u8>>)
      ensures r.Ok? <==> Utf8.ValidUtf8(data)
      ensures r.Ok? ==> r.value == data
      ensures r.Err? ==> r.error == InvalidUtf8
    {
      if Utf8.ValidUtf8(data) then Ok(data) else Err(InvalidUtf8)
    }
  }

  /** `Chunk::new`: feeds type and data to a fresh CRC hasher; the length is
      the data size cast to `u32`, which truncates modulo 2^32. */
  function New(t: ChunkTypes.ChunkType, data: seq<u8>): (c: Chunk)
    ensures c.chunkType == t && c.data == data
    ensures c.length == |data| % U32_LIMIT
    ensures |data| < U32_LIMIT ==> c.length == |data|
    ensures c.crc == Crc32.Checksum(t.inner + data)
  {
    var crc := Crc32.Hasher.New().Update(t.inner).Update(data).Finalize();
    Crc32.HasherChecksum(t.inner, data);
    Chunk(|data| % U32_LIMIT, t, data, crc)
  }

  /** A chunk with a valid type whose stored length and CRC agree with its
      type and data: what `New` builds from a valid type and data that fits a
      `u32` length.  Its bytes are 12 more than its stored length. */
  predicate WellFormed(c: Chunk)
  {
    c.chunkType.IsValid() && |c.data| < U32_LIMIT
    && c.length == |c.data| && c.crc == Crc32.Checksum(c.chunkType.inner + c.data)
  }

  /** `New` builds exactly the well-formed chunks (from a valid type and short enough data). */
  lemma NewWellFormed(c: Chunk)
    ensures WellFormed(c) <==> c.chunkType.IsValid() && |c.data| < U32_LIMIT && c == New(c.chunkType, c.data)
  {
  }

  /** One chunk read from the front of `b`, with the number of bytes it took:
      the steps of `TryFrom<&[u8]>`, in their order. */
  function ReadChunk(b: seq<u8>): (r: Result<(Chunk, nat)>)
    ensures r.Ok? ==> 12 <= r.value.1 <= |b|
  {
    if |b| < 4 then Err(Eof)
    else
      var length := FromBE32(b[..4]);
      if |b| < 8 then Err(Eof)
      else match ChunkTypes.TryFrom(b[4..8])
        case Err(e) => Err(e)
        case Ok(t) =>
          if |b| - 8 < length then Err(Eof)
          else
            var data := b[8..8 + length];
            if |b| - 8 - length < 4 then Err(Eof)
            else
              var crc := FromBE32(b[8 + length..12 + length]);
              var chunk := New(t, data);
              if chunk.length != length then Err(BadLength)
              else if chunk.crc != crc then Err(BadCrc)
              else Ok((chunk, 12 + length))
  }

  /** Once all four fields have been read, only the two cross-checks remain. */
  lemma ReadChunkChecks(b: seq<u8>, t: ChunkTypes.ChunkType, length: u32)
    requires 8 <= |b| && length == FromBE32(b[..4]) && ChunkTypes.TryFrom(b[4..8]) == Ok(t)
    requires 12 + length <= |b|
    ensures var chunk := New(t, b[8..8 + length]);
            ReadChunk(b) == if chunk.length != length then Err(BadLength)
                            else if chunk.crc != FromBE32(b[8 + length..12 + length]) then Err(BadCrc)
                            else Ok((chunk, 12 + length))
  {
  }

  /** What `TryFrom<&[u8]>` returns for `b`: the chunk read from its front,
      which is well-formed and whose bytes are a prefix of `b`, or the
      read's error. */
  function ParseChunk(b: seq<u8>): (r: Result<Chunk>)
    ensures r.Ok? <==> ReadChunk(b).Ok?
    ensures r.Ok? ==> WellFormed(r.value) && 12 + |r.value.data| <= |b|
                      && b[..12 + |r.value.data|] == r.value.AsBytes()
    ensures r.Ok? ==> r.value == ReadChunk(b).value.0
    ensures r.Err? ==> r.error == ReadChunk(b).error
  {
    match ReadChunk(b)
    case Err(e) => Err(e)
    case Ok((c, _)) => ReadChunkInverse(b); Ok(c)
  }

  /** `TryFrom<&[u8]>`: reads length, type, data and CRC through a reader
      into a reused four-byte buffer, rebuilds the chunk with `New` and
      cross-checks length and CRC. */
  method TryFrom(value: seq<u8>) returns (r: Result<Chunk>)
    ensures r == ParseChunk(value)
  {
    var reader := new BufReader(value);
    var fourBytes :- reader.ReadExact(4);
    assert fourBytes == value[..4] && reader.Remaining() == value[4..];
    var length := FromBE32(fourBytes);
    fourBytes :- reader.ReadExact(4);
    assert fourBytes == value[4..8] && reader.Remaining() == value[8..];
    var chunkType :- ChunkTypes.TryFrom(fourBytes);
    var data :- reader.ReadExact(length);
    assert data == value[8..8 + length] && reader.Remaining() == value[8 + length..];
    fourBytes :- reader.ReadExact(4);
    assert fourBytes == value[8 + length..12 + length];
    var crc := FromBE32(fourBytes);
    var chunk := New(chunkType, data);
    ReadChunkChecks(value, chunkType, length);
    if chunk.length != length {
      return Err(BadLength);
    }
    if chunk.crc != crc {
      return Err(BadCrc);
    }
    return Ok(chunk);
  }

  /** Reading the bytes of a well-formed chunk gives that chunk back and
      consumes exactly its bytes; what follows them is not looked at. */
  lemma ReadSerialised(c: Chunk, rest: seq<u8>)
    requires WellFormed(c)
    ensures ReadChunk(c.AsBytes() + rest) == Ok((c, 12 + |c.data|))
  {
    var b := c.AsBytes() + rest;
    var n := |c.data|;
    assert b[..4] == ToBE32(c.length);
    FromToBE32(c.length);
    assert b[4..8] == c.chunkType.inner;
    assert b[8..8 + n] == c.data;
    assert b[8 + n..12 + n] == ToBE32(c.crc);
    FromToBE32(c.crc);
  }

  /** Round trip: a chunk built by `New` from a valid type parses back to itself. */
  lemma NewRoundTrip(t: ChunkTypes.ChunkType, data: seq<u8>)
    requires t.IsValid() && |data| < U32_LIMIT
    ensures ParseChunk(New(t, data).AsBytes()) == Ok(New(t, data))
  {
    var c := New(t, data);
    ReadSerialised(c, []);
    assert c.AsBytes() + [] == c.AsBytes();
  }

  /** Whatever reads successfully is a well-formed chunk whose bytes are
      exactly the bytes consumed: serialising is the inverse of parsing. */
  lemma ReadChunkInverse(b: seq<u8>)
    requires ReadChunk(b).Ok?
    ensures var (c, n) := ReadChunk(b).value;
            WellFormed(c) && n == 12 + |c.data| && b[..n] == c.AsBytes()
  {
    var (c, n) := ReadChunk(b).value;
    var length := FromBE32(b[..4]);
    ToFromBE32(b[..4]);
    ToFromBE32(b[8 + length..12 + length]);
    assert b[..n] == b[..4] + b[4..8] + b[8..8 + length] + b[8 + length..12 + length];
  }

  /** A successful read splits the input into the chunk's bytes and the rest. */
  lemma ReadChunkPrefix(b: seq<u8>)
    requires ReadChunk(b).Ok?
    ensures b == ReadChunk(b).value.0.AsBytes() + b[ReadChunk(b).value.1..]
  {
    var (c, n) := ReadChunk(b).value;
    ReadChunkInverse(b);
    assert b == b[..n] + b[n..];
  }

  /** Input after the first chunk never changes the outcome of a successful read. */
  lemma TrailingInputIgnored(b: seq<u8>, t: seq<u8>)
    requires ReadChunk(b).Ok?
    ensures ReadChunk(b + t) == ReadChunk(b)
  {
    var (c, n) := ReadChunk(b).value;
    ReadChunkInverse(b);
    assert b == c.AsBytes() + b[n..];
    ReadSerialised(c, b[n..]);
    assert b + t == c.AsBytes() + (b[n..] + t);
    ReadSerialised(c, b[n..] + t);
  }

  /** Every way a read can end, in terms of the input bytes: too short for
      length and type is `Eof`; an invalid type is `InvalidType` even when the
      data is missing; a valid type with fewer than 12 + length bytes is `Eof`;
      otherwise the read succeeds exactly when the stored CRC is the CRC of
      type and data, and fails with `BadCrc` when it is not.  The length check
      never fails. */
  lemma ReadChunkOutcome(b: seq<u8>)
    ensures |b| < 8 ==> ReadChunk(b) == Err(Eof)
    ensures |b| >= 8 && !ChunkTypes.ChunkType(b[4..8]).IsValid() ==> ReadChunk(b) == Err(InvalidType)
    ensures |b| >= 8 && ChunkTypes.ChunkType(b[4..8]).IsValid() && |b| < 12 + FromBE32(b[..4]) ==>
              ReadChunk(b) == Err(Eof)
    ensures |b| >= 8 && ChunkTypes.ChunkType(b[4..8]).IsValid() && |b| >= 12 + FromBE32(b[..4]) ==>
              var length := FromBE32(b[..4]);
              (ReadChunk(b).Ok? <==> FromBE32(b[8 + length..12 + length]) == Crc32.Checksum(b[4..8 + length]))
              && (ReadChunk(b).Err? ==> ReadChunk(b).error == BadCrc)
    ensures ReadChunk(b) != Err(BadLength)
  {
    if |b| >= 8 && ChunkTypes.ChunkType(b[4..8]).IsValid() && |b| >= 12 + FromBE32(b[..4]) {
      var length := FromBE32(b[..4]);
      assert b[4..8 + length] == b[4..8] + b[8..8 + length];
    }
  }

  /** `DataAsString` succeeds on ASCII data and returns it unchanged. */
  lemma AsciiDataAsString(c: Chunk)
    requires Utf8.IsAscii(c.data)
    ensures c.DataAsString() == Ok(c.data)
  {
    Utf8.AsciiIsValidUtf8(c.data);
  }
}
