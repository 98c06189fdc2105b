# msg-in-png: the chunk-level PNG container, modelled and verified in Dafny

msg-in-png hides text messages inside PNG files. It adds a chunk of a made-up type
to a PNG file and reads that chunk back later. Its core works on chunks and never
decodes the image. That core has three layers, and this project models each one:

- **Chunk types** (`chunk_type.dfy`, module `ChunkTypes`):
  - the four-byte code and its case-based flags (critical, public, reserved bit, safe to copy);
  - the validity test;
  - two constructors of different strength. `TryFrom` on four bytes demands
    validity. `FromStr` on a string only demands four ASCII letters.
- **Chunks** (`chunk.dfy`, module `Chunks`):
  - `Chunk::new`, which derives the length and the CRC-32 of type and data;
  - serialisation as big-endian length ++ type ++ data ++ big-endian CRC;
  - the reading constructor, which rereads that layout through a `BufReader`
    and cross-checks length and CRC;
  - `data_as_string`.
- **PNG files** (`png.dfy`, module `PngFile`): the eight-byte signature and a `Png`
  class whose `chunks` sequence is edited in place:
  - `append_chunk` inserts before the last chunk;
  - `remove_chunk` removes the first chunk of a named type;
  - `chunk_by_type` looks a chunk up;
  - `as_bytes` serialises the file;
  - `TryFrom` parses a file with a reading loop.

Supporting modules:

- `errors.dfy`: error kinds and `Result`/`Option`.
- `bytes.dfy`: `u8`/`u32` and the big-endian encoding, with its round trips.
- `crc32.dfy`: the reflected CRC-32 of section 3.4 of the PNG Specification,
  version 1.2, plus the incremental hasher interface.
- `utf8.dfy`: well-formed UTF-8 as defined by RFC 3629.
- `buf_reader.dfy`: a reader over an in-memory byte slice.

The parsers are imperative methods over a `BufReader` object. Each is proved
equal to a specification function on byte sequences:

- `Chunks.ReadChunk` and `Chunks.ParseChunk` for one chunk;
- `PngFile.ParseChunks` and `PngFile.ParsePng` for a whole file.

The round trips, error cases and editing properties are lemmas about those
functions. Rust `&str` arguments are modelled by their UTF-8 bytes.

## Model

| member | source | states |
|---|---|---|
| `Bytes.FromToBE32` | src/chunk.rs:94 | decoding the four big-endian bytes of a `u32` gives the number back |
| `Bytes.ToFromBE32` | src/chunk.rs:80 | every four bytes are the big-endian encoding of the number they decode to |
| `Bytes.FromBE32Injective` | src/chunk.rs:94 | two four-byte groups that decode to the same number are equal |
| `Crc32.Checksum` | src/chunk.rs:37-40 | the CRC-32 of a message: register preset to all ones, bytes fed least significant bit first through the reflected polynomial 0xEDB88320, final complement (a definition; `HasherChecksum` ties the hasher to it) |
| `Crc32.Hasher.New` | src/chunk.rs:37 | a fresh hasher finalizes to 0, the CRC of no bytes |
| `Crc32.Hasher.Update` | src/chunk.rs:38-39 | a fresh hasher fed some bytes finalizes to their CRC; feeding no bytes changes nothing |
| `Crc32.Hasher.Finalize` | src/chunk.rs:40 | the final complement: the result is 0 exactly when the register holds all ones |
| `Crc32.RegisterConcat` | src/chunk.rs:38-39 | feeding a message to the CRC register in two pieces ends in the same register as feeding it at once |
| `Crc32.HasherChecksum` | src/chunk.rs:37-40 | `new`, `update(type)`, `update(data)`, `finalize` yield the CRC-32 of type ++ data |
| `Utf8.CharLength` | src/chunk.rs:68 | a character is at most four bytes long, at most the input's length, and one byte exactly when the lead byte is ASCII |
| `Utf8.AsciiIsValidUtf8` | src/chunk.rs:68 | ASCII bytes are well-formed UTF-8 |
| `ChunkTypes.ChunkType.Bytes` | src/chunk_type.rs:19-21 | the bytes by value: a chunk type rebuilt from them equals the original |
| `ChunkTypes.ChunkType.IsValid` | src/chunk_type.rs:27-34 | all four bytes are ASCII letters and the third is upper case (a definition; `PropertyBits` states it as the reserved bit being clear) |
| `ChunkTypes.ChunkType.IsCritical` | src/chunk_type.rs:36-38 | byte 0 is an upper-case letter (a definition; `PropertyBits` shows it is the ancillary bit being clear) |
| `ChunkTypes.ChunkType.IsPublic` | src/chunk_type.rs:40-42 | byte 1 is an upper-case letter (a definition; `PropertyBits` shows it is the private bit being clear) |
| `ChunkTypes.ChunkType.IsReservedBitValid` | src/chunk_type.rs:44-46 | byte 2 is an upper-case letter (a definition; `PropertyBits` shows it is the reserved bit being clear) |
| `ChunkTypes.ChunkType.IsSafeToCopy` | src/chunk_type.rs:48-50 | byte 3 is a lower-case letter (a definition; `PropertyBits` shows it is the safe-to-copy bit being set) |
| `ChunkTypes.TryFrom` | src/chunk_type.rs:56-63 | succeeds exactly on the valid codes, keeping the bytes unchanged (`bytes()` returns them); otherwise fails with `InvalidType` |
| `ChunkTypes.FirstNonAlphabetic` | src/chunk_type.rs:75-76 | the least index of a non-letter byte: every byte before it is a letter, and the byte there is not |
| `ChunkTypes.ParseName` | src/chunk_type.rs:69-87 | succeeds exactly on four ASCII letters, whatever the case of the third, storing them verbatim; a length other than four gives `WrongLength`; otherwise the error names the first non-letter byte |
| `ChunkTypes.FromStr` | src/chunk_type.rs:69-87 | the length check, then the byte-by-byte copy into a four-byte array with an early return, computes exactly `ParseName` |
| `ChunkTypes.TryFromImpliesParseName` | src/chunk_type.rs:56-87 | every code `TryFrom` accepts is accepted by `FromStr` with the same bytes |
| `ChunkTypes.RustExample` | src/chunk_type.rs:85-86 | "Rust" is accepted by `FromStr` although it is invalid, and `TryFrom` rejects the same bytes |
| `ChunkTypes.RuStExample` | src/chunk_type.rs:27-50 | "RuSt" is critical, private, reserved-bit valid, safe to copy and valid |
| `ChunkTypes.CaseIsBit5` | src/chunk_type.rs:36-50 | for a letter, upper case means bit 5 is clear and lower case means it is set |
| `ChunkTypes.PropertyBits` | src/chunk_type.rs:27-50 | for four letters each flag is the bit-5 test of its byte, and validity is the reserved bit being clear |
| `ChunkTypes.EqualityIsBytewise` | src/chunk_type.rs:99-103 | two chunk types are equal exactly when their four bytes are |
| `Chunks.New` | src/chunk.rs:36-47 | type and data are stored unchanged; the length is the data size modulo 2^32, which is the size itself when that is below 2^32; the CRC is the CRC-32 of type ++ data |
| `Chunks.WellFormed` | src/chunk.rs:36-47 | a valid type, data shorter than 2^32 bytes, and length and CRC equal to what `new` computes from type and data (a definition; `NewWellFormed` characterises it) |
| `Chunks.NewWellFormed` | src/chunk.rs:36-47 | the well-formed chunks are exactly what `New` builds from a valid type and data shorter than 2^32 bytes |
| `Chunks.Chunk.AsBytes` | src/chunk.rs:74-83 | 12 + data size bytes: the big-endian length, the type bytes, the data and the big-endian CRC, in that order |
| `Chunks.Chunk.DataAsString` | src/chunk.rs:67-71 | succeeds exactly when the data is well-formed UTF-8, returning the data unchanged; otherwise fails with `InvalidUtf8` |
| `Chunks.AsciiDataAsString` | src/chunk.rs:67-71 | ASCII data always reads back as text, unchanged |
| `Chunks.ReadChunk` | src/chunk.rs:89-113 | a successful read consumes at least 12 bytes and no more than the input holds |
| `Chunks.ReadChunkChecks` | src/chunk.rs:105-112 | once all four fields are read, a length mismatch gives `BadLength`, then a CRC mismatch gives `BadCrc`, and otherwise the result is the chunk rebuilt by `new`, with 12 + length bytes consumed |
| `Chunks.ParseChunk` | src/chunk.rs:89-113 | succeeds exactly when the read does; the chunk is then the one read, well-formed, and its bytes are a prefix of the input; otherwise the error is the read's error |
| `Chunks.TryFrom` | src/chunk.rs:89-113 | the reads through a `BufReader` into a reused four-byte buffer, then the length and CRC checks, compute exactly `ParseChunk` |
| `Chunks.ReadSerialised` | src/chunk.rs:74-113 | reading the bytes of a well-formed chunk, whatever follows them, gives the chunk back and consumes exactly 12 + data size bytes |
| `Chunks.NewRoundTrip` | src/chunk.rs:36-113 | a chunk built by `new` from a valid type and data shorter than 2^32 bytes parses back from its own bytes to an equal chunk |
| `Chunks.ReadChunkInverse` | src/chunk.rs:89-113 | whatever reads successfully is a well-formed chunk whose bytes are exactly the bytes consumed |
| `Chunks.ReadChunkPrefix` | src/chunk.rs:89-113 | a successful read splits the input into the chunk's bytes and the bytes after them |
| `Chunks.TrailingInputIgnored` | src/chunk.rs:90-113 | bytes after the first chunk never change the outcome of a successful read |
| `Chunks.ReadChunkOutcome` | src/chunk.rs:93-111 | fewer than 8 bytes gives `Eof`; an invalid type gives `InvalidType`; a valid type with fewer than 12 + length bytes gives `Eof`; otherwise the read succeeds exactly when the stored CRC is the CRC-32 of type ++ data, and fails with `BadCrc` when it is not; the length mismatch is never reported |
| `PngFile.ChunksBytes` | src/png.rs:86 | each chunk's bytes in order: at least 12 bytes per chunk, so empty exactly when there are no chunks |
| `PngFile.ParseChunks` | src/png.rs:107-124 | the chunks read one after another until the input is used up: each takes at least 12 bytes, and only empty input parses to no chunks |
| `PngFile.ParsePng` | src/png.rs:96-126 | fewer than eight bytes give `Eof`; eight or more that do not start with the signature give `BadSignature` whatever follows; a success starts with the signature and has room for 12 bytes per chunk |
| `PngFile.InsertBeforeLast` | src/png.rs:34-41 | one element longer; on an empty list just the new chunk; otherwise the old prefix, then the new chunk, then the old last chunk |
| `PngFile.FirstIndexOf` | src/png.rs:46-50 | the least index of a chunk of the type, or none when no chunk has it |
| `PngFile.RemoveFirst` | src/png.rs:44-58 | on failure the list is unchanged; a name `FromStr` rejects gives its error; `NotFound` exactly when no chunk has the type, and success whenever some chunk has it; on success the result is the first chunk of the type, and the list loses exactly that chunk |
| `PngFile.Lookup` | src/png.rs:68-80 | finds a chunk exactly when the name parses and some chunk has its type; what it finds is the first such chunk |
| `PngFile.Png.FromChunks` | src/png.rs:20-30 | the signature, an eight-byte value, is the standard 89 50 4E 47 0D 0A 1A 0A, and the chunks are as given |
| `PngFile.Png.AppendChunk` | src/png.rs:34-41 | pop, push, push leaves exactly `InsertBeforeLast` of the old chunks; the signature is a constant |
| `PngFile.Png.FindIndex` | src/png.rs:46-50 | the search loop returns `FirstIndexOf` |
| `PngFile.Png.RemoveChunk` | src/png.rs:44-58 | the result and the chunks left behind are exactly `RemoveFirst` of the old chunks |
| `PngFile.Png.ChunkByType` | src/png.rs:68-80 | returns exactly `Lookup`, and changes nothing |
| `PngFile.Png.AsBytes` | src/png.rs:82-88 | starts with the signature; with the standard signature and well-formed chunks it parses back to the same chunks |
| `PngFile.ReadInline` | src/png.rs:108-122 | one inline chunk read from the shared reader fails with `ReadChunk`'s error, or returns `ReadChunk`'s chunk and advances the reader past exactly its bytes |
| `PngFile.Png.TryFrom` | src/png.rs:96-126 | succeeds exactly when `ParsePng` does; the new file then has the standard signature and `ParsePng`'s chunks; otherwise it fails with `ParsePng`'s error |
| `PngFile.ParseChunksStep` | src/png.rs:107-123 | on non-empty input, a chunk-read error is the parse error; otherwise the parse is that chunk followed by the parse of the rest |
| `PngFile.ParseChunksCons` | src/png.rs:107-123 | parsing a well-formed chunk's bytes followed by more input gives that chunk, then whatever the rest gives |
| `PngFile.PrependTwice` | src/png.rs:123 | a helper for the loop invariant of `Png.TryFrom`: prefixing chunks in two batches equals prefixing them at once |
| `PngFile.ChunksRoundTrip` | src/png.rs:82-88 | the concatenated bytes of well-formed chunks parse back as those chunks |
| `PngFile.PngRoundTrip` | src/png.rs:82-126 | the standard signature followed by well-formed chunks parses back to the same chunks |
| `PngFile.ParseChunksInverse` | src/png.rs:107-124 | whatever parses is a list of well-formed chunks whose bytes are exactly the input |
| `PngFile.ParsedWellFormed` | src/png.rs:107-124 | every chunk of a successful parse is well-formed |
| `PngFile.ParsedBytes` | src/png.rs:107-124 | the chunks of a successful parse serialise back to exactly the input |
| `PngFile.ParsePngInverse` | src/png.rs:96-126 | a file that parses is its signature followed by its chunks' bytes, so `as_bytes` gives the input back |
| `PngFile.CorruptChunkAborts` | src/png.rs:107-124 | good chunks followed by input that does not read as a chunk fail with that chunk's error, keeping no partial result |
| `PngFile.CorruptFileAborts` | src/png.rs:96-124 | the same for a whole file behind the standard signature |
| `PngFile.LookupAgreesWithRemove` | src/png.rs:44-80 | `chunk_by_type` finds a chunk exactly when `remove_chunk` would remove one, and it is the same chunk |
| `PngFile.AppendThenRemove` | src/png.rs:34-58 | appending a chunk of a type no other chunk has, then removing that type, returns the chunk and restores the original list |
| `PngFile.HiddenMessageRecovered` | src/png.rs:34-126 | a message chunk under a fresh valid type, inserted before the last chunk of a well-formed file, survives serialising and parsing, is found by name, and its ASCII data reads back as text |
| `BufReaders.BufReader.HasData` | src/png.rs:107 | `fill_buf` hands back a non-empty buffer exactly when unread bytes remain |
| `BufReaders.BufReader.ReadExact` | src/chunk.rs:93 | returns the next `n` bytes and advances past them; with fewer than `n` left it fails with `Eof` |

## Left out

- `Display` for `ChunkType`, `Chunk` and `PNG` (src/chunk_type.rs:90-97, src/chunk.rs:116-126, src/png.rs:129-133): string formatting only.
- The accessors `bytes`, `length`, `chunk_type`, `data`, `crc`, `header` and `chunks`: these are the datatype and class fields themselves.
- src/args.rs, src/main.rs and src/tests/mod.rs: command-line definitions and module declarations, with no logic. The `commands` module named in src/main.rs is not part of this model.
- The table-driven internals of `crc32fast::Hasher`: the model's hasher computes the bitwise CRC-32 directly. The property that a single bit flip is always detected is CRC algebra, not logic of this crate, and is not proved.
- Concrete CRC values, such as the CRC of an `IEND` chunk: the bitwise definition is too costly to evaluate on literals here.
- `is_valid` (src/chunk_type.rs:27-34) is an early-exit loop. It is modelled as a quantifier over the four bytes. `PropertyBits` states it in terms of bits.
- `BufReader` I/O: reading from a slice fails only by running out of input, so the only I/O error modelled is `Eof`. `fill_buf` is the `HasData` test.
- Allocation failure of `vec![0; length]` for a huge declared length is not modelled. The model reads with `Eof` instead.
- `data_as_string` checks well-formed UTF-8 and returns the bytes unchanged. Decoding them into characters is not modelled.
- Error messages are not modelled. Each error is one constructor of `Errors.Error`.
- `remove_chunk` propagates the error of `ChunkType::from_str`, which is `WrongLength` or `InvalidChar`. It does not report a separate "invalid type code" error; the model follows the code.
- `PngFile.ReadInline` is the loop body of `TryFrom<&[u8]>` for `PNG` (src/png.rs:108-122), split out as its own method. The source writes these reads inline and does not call `Chunk::try_from`. `ReadInline` does not call `Chunks.TryFrom` either.
