/** A PNG file as an 8-byte signature (section 3.1 of the PNG Specification,
    version 1.2) followed by an ordered list of chunks, with the edits the
    crate makes to that list: insert before the last chunk, remove the first
    chunk of a type, look a chunk up by type. */
module PngFile {
  import opened Bytes
  import opened Errors
  import ChunkTypes
  import Chunks
  import Utf8
  import opened BufReaders

  type Chunk = Chunks.Chunk

  type Signature = s: seq<u8> | |s| == 8 witness [0, 0, 0, 0, 0, 0, 0, 0]

  /** 89 50 4E 47 0D 0A 1A 0A */
  const STANDARD_HEADER: Signature := [0x89, 0x50, 0x4E, 0x47, 0x0D, 0x0A, 0x1A, 0x0A]

  predicate AllWellFormed(cs: seq<Chunk>) {
    forall i :: 0 <= i < |cs| ==> Chunks.WellFormed(cs[i])
  }

  /** The chunks' bytes one after another: at least 12 per chunk, so empty
      exactly when there are no chunks. */
  function ChunksBytes(cs: seq<Chunk>): (b: seq<u8>)
    ensures |b| >= 12 * |cs|
    ensures b == [] <==> cs == []
  {
    if cs == [] then [] else cs[0].AsBytes() + ChunksBytes(cs[1..])
  }

  /** Chunks read one after another until the input is used up; the first
      failing chunk decides the result.  Every chunk takes at least 12
      bytes, and no input but the empty one parses to no chunks. */
  function ParseChunks(b: seq<u8>): (r: Result<seq<Chunk>>)
    ensures r.Ok? ==> 12 * |r.value| <= |b|
    ensures r.Ok? ==> (r.value == [] <==> b == [])
    decreases |b|
  {
    if b == [] then Ok([])
    else match Chunks.ReadChunk(b)
      case Err(e) => Err(e)
      case Ok((c, n)) =>
        match ParseChunks(b[n..])
        case Err(e) => Err(e)
        case Ok(cs) => Ok([c] + cs)
  }

  /** What `TryFrom<&[u8]>` for `PNG` returns: the chunk list, whose signature
      is always the standard one.  Fewer than eight bytes is `Eof`; eight or
      more that do not start with the signature is `BadSignature`, whatever
      follows. */
  function ParsePng(b: seq<u8>): (r: Result<seq<Chunk>>)
    ensures |b| < 8 ==> r == Err(Eof)
    ensures |b| >= 8 && b[..8] != STANDARD_HEADER ==> r == Err(BadSignature)
    ensures r.Ok? ==> b[..8] == STANDARD_HEADER && 8 + 12 * |r.value| <= |b|
  {
    if |b| < 8 then Err(Eof)
    else if b[..8] != STANDARD_HEADER then Err(BadSignature)
    else ParseChunks(b[8..])
  }

  /** The chunk list after `append_chunk(c)`. */
  function InsertBeforeLast(s: seq<Chunk>, c: Chunk): (r: seq<Chunk>)
    ensures |r| == |s| + 1
    ensures s == [] ==> r == [c]
    ensures s != [] ==> r[..|s| - 1] == s[..|s| - 1] && r[|s| - 1] == c && r[|s|] == s[|s| - 1]
  {
    if s == [] then [c] else s[..|s| - 1] + [c, s[|s| - 1]]
  }

  /** Index of the first chunk of type `t`. */
  function FirstIndexOf(cs: seq<Chunk>, t: ChunkTypes.ChunkType): (r: Option<nat>)
    ensures r.Some? ==> r.value < |cs| && cs[r.value].chunkType == t
    ensures r.Some? ==> forall j :: 0 <= j < r.value ==> cs[j].chunkType != t
    ensures r.None? ==> forall j :: 0 <= j < |cs| ==> cs[j].chunkType != t
  {
    if cs == [] then None
    else if cs[0].chunkType == t then Some(0)
    else match FirstIndexOf(cs[1..], t)
      case None => None
      case Some(i) => Some(i + 1)
  }

  /** The outcome of `remove_chunk(name)` on `cs`: the result and the list left behind. */
  function RemoveFirst(cs: seq<Chunk>, name: seq<u8>): (out: (Result<Chunk>, seq<Chunk>))
    ensures out.0.Err? ==> out.1 == cs
    ensures ChunkTypes.ParseName(name).Err? ==> out.0 == Err(ChunkTypes.ParseName(name).error)
    ensures ChunkTypes.ParseName(name).Ok? ==>
              var t := ChunkTypes.ParseName(name).value;
              && (out.0 == Err(NotFound) <==> forall j :: 0 <= j < |cs| ==> cs[j].chunkType != t)
              && ((exists j :: 0 <= j < |cs| && cs[j].chunkType == t) ==> out.0.Ok?)
    ensures out.0.Ok? ==>
              && ChunkTypes.ParseName(name).Ok?
              && exists i :: 0 <= i < |cs| && out.0.value == cs[i] && out.1 == cs[..i] + cs[i + 1..]
                               && cs[i].chunkType == ChunkTypes.ParseName(name).value
                               && forall j :: 0 <= j < i ==> cs[j].chunkType != cs[i].chunkType
  {
    match ChunkTypes.ParseName(name)
    case Err(e) => (Err(e), cs)
    case Ok(t) =>
      match FirstIndexOf(cs, t)
      case None => (Err(NotFound), cs)
      case Some(i) => (Ok(cs[i]), cs[..i] + cs[i + 1..])
  }

  /** The outcome of `chunk_by_type(name)` on `cs`. */
  function Lookup(cs: seq<Chunk>, name: seq<u8>): (r: Option<Chunk>)
    ensures r.Some? <==>
              && ChunkTypes.ParseName(name).Ok?
              && exists i :: 0 <= i < |cs| && cs[i].chunkType == ChunkTypes.ParseName(name).value
    ensures r.Some? ==>
              exists i :: && 0 <= i < |cs| && r.value == cs[i]
                          && cs[i].chunkType == ChunkTypes.ParseName(name).value
                          && forall j :: 0 <= j < i ==> cs[j].chunkType != cs[i].chunkType
  {
    match ChunkTypes.ParseName(name)
    case Err(_) => None
    case Ok(t) =>
      match FirstIndexOf(cs, t)
      case None => None
      case Some(i) => Some(cs[i])
  }

  /** Prefixes already-read chunks to the outcome of reading the rest. */
  function Prepend(cs: seq<Chunk>, r: Result<seq<Chunk>>): Result<seq<Chunk>> {
    match r
    case Err(e) => Err(e)
    case Ok(rest) => Ok(cs + rest)
  }

  lemma PrependTwice(a: seq<Chunk>, b: seq<Chunk>, r: Result<seq<Chunk>>)
    ensures Prepend(a, Prepend(b, r)) == Prepend(a + b, r)
  {
    if r.Ok? {
      assert a + (b + r.value) == (a + b) + r.value;
    }
  }

  /** The body of the loop in `TryFrom<&[u8]>` for `PNG`: one chunk read
      inline from the shared reader, with the same steps and checks as
      `Chunks.TryFrom`. */
  method ReadInline(reader: BufReader) returns (r: Result<Chunk>)
    requires reader.Valid()
    modifies reader
    ensures reader.Valid()
    ensures Chunks.ReadChunk(old(reader.Remaining())).Err? ==> r == Err(Chunks.ReadChunk(old(reader.Remaining())).error)
    ensures Chunks.ReadChunk(old(reader.Remaining())).Ok? ==>
              var (chunk, n) := Chunks.ReadChunk(old(reader.Remaining())).value;
              r == Ok(chunk) && reader.Remaining() == old(reader.Remaining())[n..]
  {
    ghost var rest := reader.Remaining();
    var lenFourBytes :- reader.ReadExact(4);
    assert lenFourBytes == rest[..4] && reader.Remaining() == rest[4..];
    var typeFourBytes :- reader.ReadExact(4);
    assert typeFourBytes == rest[4..8] && reader.Remaining() == rest[8..];
    var length := FromBE32(lenFourBytes);
    var chunkType :- ChunkTypes.TryFrom(typeFourBytes);
    var data :- reader.ReadExact(length);
    assert data == rest[8..8 + length] && reader.Remaining() == rest[8 + length..];
    var crcFourBytes :- reader.ReadExact(4);
    assert crcFourBytes == rest[8 + length..12 + length] && reader.Remaining() == rest[12 + length..];
    var crc := FromBE32(crcFourBytes);
    var chunk := Chunks.New(chunkType, data);
    Chunks.ReadChunkChecks(rest, chunkType, length);
    if chunk.length != length {
      return Err(BadLength);
    }
    if chunk.crc != crc {
      return Err(BadCrc);
    }
    return Ok(chunk);
  }

  class Png {
    const signature: Signature
    var chunks: seq<Chunk>

    /** `from_chunks`: the standard signature and the chunks as given, unchecked. */
    constructor FromChunks(chunks: seq<Chunk>)
      ensures signature == STANDARD_HEADER && this.chunks == chunks
    {
      signature := STANDARD_HEADER;
      this.chunks := chunks;
    }

    /** `append_chunk`: pops the last chunk, pushes `chunk`, pushes the old last chunk back. */
    method AppendChunk(chunk: Chunk)
      modifies this
      ensures chunks == InsertBeforeLast(old(chunks), chunk)
    {
      if |chunks| > 0 {
        var lastChunk := chunks[|chunks| - 1];
        chunks := chunks[..|chunks| - 1];
        chunks := chunks + [chunk];
        chunks := chunks + [lastChunk];
      } else {
        chunks := chunks + [chunk];
      }
    }

    /** The `iter().enumerate().find(..)` of `remove_chunk`. */
    method FindIndex(t: ChunkTypes.ChunkType) returns (found: Option<nat>)
      ensures found == FirstIndexOf(chunks, t)
    {
      var index := 0;
      while index < |chunks|
        invariant 0 <= index <= |chunks|
        invariant forall j :: 0 <= j < index ==> chunks[j].chunkType != t
      {
        if chunks[index].chunkType == t {
          return Some(index);
        }
        index := index + 1;
      }
      return None;
    }

    /** `remove_chunk`: parses the name with `FromStr`, then removes and returns
        the first chunk of that type. */
    method RemoveChunk(name: seq<u8>) returns (r: Result<Chunk>)
      modifies this
      ensures (r, chunks) == RemoveFirst(old(chunks), name)
    {
      var chunkType :- ChunkTypes.FromStr(name);
      var found := FindIndex(chunkType);
      match found {
        case None =>
          r := Err(NotFound);
        case Some(index) =>
          r := Ok(chunks[index]);
          chunks := chunks[..index] + chunks[index + 1..];
      }
    }

    /** `chunk_by_type`: the first chunk of the named type, or nothing when the
        name does not parse or no chunk has that type. */
    method ChunkByType(name: seq<u8>) returns (r: Option<Chunk>)
      ensures r == Lookup(chunks, name)
    {
      var parsed := ChunkTypes.FromStr(name);
      if parsed.Err? {
        return None;
      }
      var chunkType := parsed.value;
      for i := 0 to |chunks|
        invariant forall j :: 0 <= j < i ==> chunks[j].chunkType != chunkType
      {
        if chunks[i].chunkType == chunkType {
          return Some(chunks[i]);
        }
      }
      return None;
    }

    /** `as_bytes`: the signature, then every chunk's bytes in order.  A file
        with the standard signature and well-formed chunks parses back to
        the same chunks. */
    function AsBytes(): (b: seq<u8>)
      reads this
      ensures |signature| <= |b| && b[..|signature|] == signature
      ensures signature == STANDARD_HEADER && AllWellFormed(chunks) ==> ParsePng(b) == Ok(chunks)
    {
      var b := signature + ChunksBytes(chunks);
      if signature == STANDARD_HEADER && AllWellFormed(chunks) then
        PngRoundTrip(chunks);
        b
      else
        b
    }

    /** `TryFrom<&[u8]>`: checks the signature, then reads chunks inline until
        the reader is empty, giving up at the first failing chunk. */
    static method TryFrom(value: seq<u8>) returns (r: Result<Png>)
      ensures r.Ok? <==> ParsePng(value).Ok?
      ensures r.Ok? ==> r.value.signature == STANDARD_HEADER && r.value.chunks == ParsePng(value).value
      ensures r.Err? ==> r.error == ParsePng(value).error
    {
      var reader := new BufReader(value);
      var signature :- reader.ReadExact(8);
      if signature != STANDARD_HEADER {
        return Err(BadSignature);
      }
      assert value[..8] == STANDARD_HEADER && reader.Remaining() == value[8..];
      assert ParsePng(value) == ParseChunks(value[8..]);
      assert ParseChunks(value[8..]).Ok? ==> [] + ParseChunks(value[8..]).value == ParseChunks(value[8..]).value;
      var chunks: seq<Chunk> := [];
      while reader.HasData()
        invariant fresh(reader)
        invariant reader.Valid() && reader.input == value && 8 <= reader.pos
        invariant ParsePng(value) == Prepend(chunks, ParseChunks(reader.Remaining()))
        decreases |value| - reader.pos
      {
        ghost var rest := reader.Remaining();
        ParseChunksStep(rest);
        var chunk :- ReadInline(reader);
        PrependTwice(chunks, [chunk], ParseChunks(reader.Remaining()));
        chunks := chunks + [chunk];
      }
      var png := new Png.FromChunks(chunks);
      return Ok(png);
    }
  }

  /** One step of `ParseChunks` on non-empty input. */
  lemma ParseChunksStep(b: seq<u8>)
    requires b != []
    ensures Chunks.ReadChunk(b).Err? ==> ParseChunks(b) == Err(Chunks.ReadChunk(b).error)
    ensures Chunks.ReadChunk(b).Ok? ==>
              var (c, n) := Chunks.ReadChunk(b).value;
              ParseChunks(b) == Prepend([c], ParseChunks(b[n..]))
  {
  }

  /** Parsing past one well-formed chunk: the chunk, then whatever the rest gives. */
  lemma ParseChunksCons(c: Chunk, b: seq<u8>)
    requires Chunks.WellFormed(c)
    ensures ParseChunks(c.AsBytes() + b) == Prepend([c], ParseChunks(b))
  {
    var whole := c.AsBytes() + b;
    Chunks.ReadSerialised(c, b);
    assert whole[12 + |c.data|..] == b;
  }

  /** Parsing past one well-formed chunk whose successors parse. */
  lemma ParseChunksConsOk(c: Chunk, b: seq<u8>, rest: seq<Chunk>)
    requires Chunks.WellFormed(c) && ParseChunks(b) == Ok(rest)
    ensures ParseChunks(c.AsBytes() + b) == Ok([c] + rest)
  {
    ParseChunksCons(c, b);
  }

  /** The bytes of well-formed chunks read back as those chunks. */
  lemma {:induction false} ChunksRoundTrip(cs: seq<Chunk>)
    requires AllWellFormed(cs)
    ensures ParseChunks(ChunksBytes(cs)) == Ok(cs)
    decreases |cs|
  {
    if cs != [] {
      var tail := ChunksBytes(cs[1..]);
      assert ChunksBytes(cs) == cs[0].AsBytes() + tail;
      ChunksRoundTrip(cs[1..]);
      ParseChunksConsOk(cs[0], tail, cs[1..]);
      assert [cs[0]] + cs[1..] == cs;
    }
  }

  /** Round trip for a whole file: serialising well-formed chunks behind the
      standard signature and parsing the result gives the same chunks. */
  lemma PngRoundTrip(cs: seq<Chunk>)
    requires AllWellFormed(cs)
    ensures ParsePng(STANDARD_HEADER + ChunksBytes(cs)) == Ok(cs)
  {
    var b := STANDARD_HEADER + ChunksBytes(cs);
    assert b[..8] == STANDARD_HEADER && b[8..] == ChunksBytes(cs);
    ChunksRoundTrip(cs);
  }

  /** Whatever parses is well-formed chunks whose bytes are exactly the input. */
  lemma ParseChunksInverse(b: seq<u8>)
    requires ParseChunks(b).Ok?
    ensures AllWellFormed(ParseChunks(b).value) && ChunksBytes(ParseChunks(b).value) == b
  {
    ParsedWellFormed(b);
    ParsedBytes(b);
  }

  lemma {:induction false} ParsedWellFormed(b: seq<u8>)
    requires ParseChunks(b).Ok?
    ensures AllWellFormed(ParseChunks(b).value)
    decreases |b|
  {
    if b != [] {
      var (c, n) := Chunks.ReadChunk(b).value;
      Chunks.ReadChunkInverse(b);
      ParsedWellFormed(b[n..]);
      var cs := ParseChunks(b).value;
      assert cs[0] == c && cs[1..] == ParseChunks(b[n..]).value;
    }
  }

  lemma {:induction false} ParsedBytes(b: seq<u8>)
    requires ParseChunks(b).Ok?
    ensures ChunksBytes(ParseChunks(b).value) == b
    decreases |b|
  {
    if b != [] {
      var (c, n) := Chunks.ReadChunk(b).value;
      Chunks.ReadChunkPrefix(b);
      ParsedBytes(b[n..]);
      var cs := ParseChunks(b).value;
      assert cs[0] == c && cs[1..] == ParseChunks(b[n..]).value;
    }
  }

  /** A successful parse followed by `as_bytes` gives back the input exactly. */
  lemma ParsePngInverse(b: seq<u8>)
    requires ParsePng(b).Ok?
    ensures AllWellFormed(ParsePng(b).value)
    ensures b == STANDARD_HEADER + ChunksBytes(ParsePng(b).value)
  {
    assert b[..8] == STANDARD_HEADER && ParsePng(b) == ParseChunks(b[8..]);
    ParseChunksInverse(b[8..]);
    assert b == b[..8] + b[8..];
  }

  /** Good chunks followed by input that does not read as a chunk: the whole
      parse fails with that chunk's error, keeping none of the good chunks. */
  lemma {:induction false} CorruptChunkAborts(cs: seq<Chunk>, rest: seq<u8>)
    requires AllWellFormed(cs) && rest != [] && Chunks.ReadChunk(rest).Err?
    ensures ParseChunks(ChunksBytes(cs) + rest) == Err(Chunks.ReadChunk(rest).error)
    decreases |cs|
  {
    if cs == [] {
      assert ChunksBytes(cs) + rest == rest;
    } else {
      assert ChunksBytes(cs) + rest == cs[0].AsBytes() + (ChunksBytes(cs[1..]) + rest);
      ParseChunksCons(cs[0], ChunksBytes(cs[1..]) + rest);
      CorruptChunkAborts(cs[1..], rest);
    }
  }

  /** The whole-file form of `CorruptChunkAborts`. */
  lemma CorruptFileAborts(cs: seq<Chunk>, rest: seq<u8>)
    requires AllWellFormed(cs) && rest != [] && Chunks.ReadChunk(rest).Err?
    ensures ParsePng(STANDARD_HEADER + ChunksBytes(cs) + rest) == Err(Chunks.ReadChunk(rest).error)
  {
    var b := STANDARD_HEADER + ChunksBytes(cs) + rest;
    assert b[..8] == STANDARD_HEADER && b[8..] == ChunksBytes(cs) + rest;
    CorruptChunkAborts(cs, rest);
  }

  /** `chunk_by_type` finds a chunk exactly when `remove_chunk` would remove
      that same chunk; where the lookup finds nothing, removal fails. */
  lemma LookupAgreesWithRemove(cs: seq<Chunk>, name: seq<u8>)
    ensures Lookup(cs, name).Some? <==> RemoveFirst(cs, name).0.Ok?
    ensures Lookup(cs, name).Some? ==> RemoveFirst(cs, name).0.value == Lookup(cs, name).value
  {
  }

  /** Appending a chunk of a type no other chunk has and then removing that
      type gives back the appended chunk and the original list. */
  lemma AppendThenRemove(s: seq<Chunk>, c: Chunk, name: seq<u8>)
    requires ChunkTypes.ParseName(name) == Ok(c.chunkType)
    requires forall j :: 0 <= j < |s| ==> s[j].chunkType != c.chunkType
    ensures RemoveFirst(InsertBeforeLast(s, c), name) == (Ok(c), s)
  {
    var r := InsertBeforeLast(s, c);
    var i := if s == [] then 0 else |s| - 1;
    assert r[i] == c;
    assert forall j :: 0 <= j < i ==> r[j] == s[j];
    assert FirstIndexOf(r, c.chunkType) == Some(i);
    if s != [] {
      assert r[..i] == s[..i] && r[i + 1..] == [s[i]];
      assert s[..i] + [s[i]] == s;
    }
  }

  /** A message chunk inserted before the last chunk of a well-formed file,
      under a valid type no other chunk has, is found again by name after the
      file is serialised and parsed, and its ASCII data reads back as text. */
  lemma HiddenMessageRecovered(cs: seq<Chunk>, name: seq<u8>, message: seq<u8>)
    requires AllWellFormed(cs)
    requires ChunkTypes.ParseName(name).Ok? && ChunkTypes.ParseName(name).value.IsValid()
    requires forall j :: 0 <= j < |cs| ==> cs[j].chunkType != ChunkTypes.ParseName(name).value
    requires |message| < U32_LIMIT && Utf8.IsAscii(message)
    ensures var c := Chunks.New(ChunkTypes.ParseName(name).value, message);
            var edited := InsertBeforeLast(cs, c);
            ParsePng(STANDARD_HEADER + ChunksBytes(edited)) == Ok(edited)
            && Lookup(edited, name) == Some(c)
            && c.DataAsString() == Ok(message)
  {
    var t := ChunkTypes.ParseName(name).value;
    var c := Chunks.New(t, message);
    var edited := InsertBeforeLast(cs, c);
    assert AllWellFormed(edited) by {
      forall j | 0 <= j < |edited|
        ensures Chunks.WellFormed(edited[j])
      {
        if cs != [] && j < |cs| - 1 {
          assert edited[j] == cs[j];
        }
      }
    }
    PngRoundTrip(edited);
    AppendThenRemove(cs, c, name);
    LookupAgreesWithRemove(edited, name);
    Chunks.AsciiDataAsString(c);
  }
}
