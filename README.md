# PNG-style chunk codec: a Dafny model

This project models the chunk codec of `pngme`. It has two parts.

The chunk type (`src/chunk_type.rs`) is a 4-byte tag. The only way to build one is the validating factory `from_slice`. It accepts exactly four ASCII letters, following section 5.4 of the PNG specification (ISO/IEC 15948). The factory has two adapters, one from `[u8; 4]` and one from `&str`. Four predicates read the letter case of one byte each: critical, public, reserved-bit-valid and safe-to-copy. `is_valid` is a fifth predicate, the same as the reserved-bit test.

The chunk (`src/chunk.rs`) holds a chunk type, a payload and a CRC-32. `Chunk::new` computes the CRC-32/ISO-HDLC of the type bytes followed by the payload. This is the CRC of section 5.5 of the PNG specification. The parser `TryFrom<&[u8]>` reads this layout:

`length (4 bytes, big-endian) ++ type (4) ++ payload (length) ++ crc (4, big-endian)`

It rejects the input with `Err(())` in four cases:

- there is no complete length field;
- the body is too short;
- the type is invalid;
- the stored CRC differs from the computed one.

Files:

- `primitives.dfy`: module `Primitives`. It defines `byte` (Rust `u8`) and `u32`, the unit-error `Result`, and `u32::from_be_bytes` / `to_be_bytes` with both round-trip lemmas.
- `utf8.dfy`: module `Utf8`. It models `str::as_bytes` as the UTF-8 encoding of Dafny characters, which `from_str` needs.
- `crc32.dfy`: module `Crc32`. It defines CRC-32/ISO-HDLC bit by bit over 32-bit registers: reflected polynomial 0xEDB88320, initial value 0xFFFFFFFF, final XOR 0xFFFFFFFF. It also has a streaming `Digest` class with a `modifies`-framed `Update` loop, like the `digest` / `update` / `finalize` calls of `Chunk::new`.
- `chunk_type.dfy`: module `ChunkTypes`. The subset type `Tag` holds the construction invariant "four ASCII letters", so no `ChunkType` value can break it.
- `chunk.dfy`: module `Chunks`. `Chunk` is an immutable datatype, and the subset type `ValidChunk` holds the invariant that the CRC field is the CRC-32 of type and payload; `New` and the parser return only `ValidChunk` values, as the private fields of the code guarantee. `New` and `TryFrom` are methods that follow the code step by step. `Parse` is the declarative specification of the parser, written over absolute offsets. `Layout` is a ghost function that gives the byte layout; it is used only to state round trips.

The parser has three outcomes: `Parsed(chunk)`, `Rejected` (the code's `Err(())`) and `Panicked`. The code checks the type before it copies the CRC field (`src/chunk.rs:44` comes before `src/chunk.rs:48`). So an input with an invalid type is rejected even when it is too long. An input that is too long but has a valid type panics in `copy_from_slice`.

Three facts about the code shape the model:

- Every error is the unit value `()`; there are no named error variants.
- The code has no serializer; `Layout` exists only to state round trips.
- Input longer than `length + 12` bytes with a valid type panics in `copy_from_slice` rather than returning an error.

## Model

| member | source | states |
|---|---|---|
| `ChunkTypes.FromSlice` | src/chunk_type.rs:45-61 | succeeds iff the input is exactly 4 bytes, each in 65..90 or 97..122; the tag it returns holds exactly the input bytes |
| `ChunkTypes.TryFromArray` | src/chunk_type.rs:28-34 | a 4-byte array is accepted iff every byte is a letter, and the tag holds the array |
| `ChunkTypes.FromStr` | src/chunk_type.rs:36-42 | a string is accepted iff it is exactly four ASCII letters, and the tag bytes are their character codes |
| `ChunkTypes.LetterStringIff` | src/chunk_type.rs:36-42 | the UTF-8 bytes of a string pass the tag check iff the string is four ASCII letters (a non-ASCII character always produces a byte of 0xC0 or more) |
| `ChunkTypes.Bytes` | src/chunk_type.rs:63-67 | `bytes()` returns exactly the four stored bytes |
| `ChunkTypes.Eq` | src/chunk_type.rs:13-17 | two tags are equal iff all four bytes are equal, position by position |
| `ChunkTypes.ToString` | src/chunk_type.rs:21-26 | the displayed string has 4 characters whose UTF-8 encoding is the tag's bytes, so `from_utf8(..).unwrap()` cannot fail |
| `ChunkTypes.DisplayRoundTrip` | src/chunk_type.rs:174-178 | the tag that `from_str` builds from a four-letter string displays as that same string |
| `ChunkTypes.CaseIsPropertyBit` | src/chunk_type.rs:9-11 | for a valid byte, upper case means property bit 5 is 0, lower case means it is 1, and the byte is exactly one of the two |
| `ChunkTypes.PredicatesReadPropertyBits` | src/chunk_type.rs:73-87 | critical, public and reserved-valid hold iff bit 5 of byte 0, 1 and 2 is 0; safe-to-copy holds iff bit 5 of byte 3 is 1 |
| `ChunkTypes.IsValidIsReservedBitValid` | src/chunk_type.rs:69-83 | `is_valid` always agrees with `is_reserved_bit_valid` |
| `ChunkTypes.SafeToCopyIffNotUpper` | src/chunk_type.rs:85-87 | for every constructed tag, safe-to-copy holds iff byte 3 is not upper case |
| `ChunkTypes.ClassificationExamples` | src/chunk_type.rs:111-172 | "RuSt" is critical, not public, reserved-valid, valid and safe-to-copy; "ruSt" is not critical; "RUSt" is public; "Rust" is neither reserved-valid nor valid; "RuST" is not safe-to-copy; "Ru1t" is rejected |
| `ChunkTypes.AdapterExamples` | src/chunk_type.rs:96-109 | `try_from([82,117,83,116])` and `from_str("RuSt")` both succeed and are equal; the bytes come back unchanged; "Ru1t" is refused |
| `Crc32.UpdateAllAppend` | src/chunk.rs:71-74 | feeding two pieces one after the other leaves the CRC register where feeding their concatenation does |
| `Crc32.ShiftIsConditionalXor` | src/chunk.rs:70-74 | one register step of the CRC drops the low bit and XORs in the reflected polynomial 0xEDB88320 exactly when that bit was set |
| `Crc32.Digest.Update` | src/chunk.rs:72-73 | the byte-by-byte update loop moves the register to the CRC register of the old state followed by the fed bytes |
| `Chunks.New` | src/chunk.rs:69-81 | the chunk keeps the given type and payload, and its CRC is the CRC-32 of the type bytes followed by the payload |
| `Chunks.Length` | src/chunk.rs:82-84 | for payloads under 2^32 bytes, `length()` is the payload length |
| `Chunks.AccessorsOfChunk` | src/chunk.rs:85-99 | for every chunk, `crc()` is the CRC-32 of type bytes and `data()`, `as_bytes()` equals `data()`, `length()` is the payload length when it is under 2^32, and the chunk is determined by its type and payload alone |
| `Chunks.CrcDeterminedByContents` | src/chunk.rs:69-81 | two chunks with the same type bytes and payload have the same CRC |
| `Chunks.TryFrom` | src/chunk.rs:26-56 | the cursor-walking parser computes exactly the outcome that the offset-based specification `Parse` gives |
| `Chunks.LayoutFields` | src/chunk.rs:31-43 | in a layout, the length field, type, payload and CRC field are found at offsets 0, 4, 8 and 8+len |
| `Chunks.ParseRejectsShortPrefix` | src/chunk.rs:27-29 | input shorter than 4 bytes is rejected |
| `Chunks.ParseRejectsShortBody` | src/chunk.rs:31-37 | input with fewer than len + 8 bytes after the length field is rejected |
| `Chunks.ParseRejectsInvalidType` | src/chunk.rs:39-44 | input of sufficient length whose bytes 4..8 are not four letters is rejected, even when it is too long |
| `Chunks.ParseRejectsCrcMismatch` | src/chunk.rs:47-53 | exactly-sized input with a valid type whose big-endian trailer differs from the CRC-32 of bytes 4..len+8 is rejected |
| `Chunks.ParseOverlongNeverSucceeds` | src/chunk.rs:43-48 | input longer than len + 12 never yields a chunk: it panics iff its type is valid, and is rejected otherwise |
| `Chunks.ParseSucceedsIff` | src/chunk.rs:39-55 | parsing succeeds iff the input is exactly len + 12 bytes, its type is valid and its trailer is the right CRC; the chunk then has type bytes 4..8, payload 8..8+len, length len, the stored CRC, and keeps the CRC invariant |
| `Chunks.ParseLayoutRoundTrip` | src/chunk.rs:26-56 | every chunk whose payload is under 2^32 bytes parses back from its layout, field for field |
| `Chunks.ParsedInputIsLayout` | src/chunk.rs:26-56 | every input the parser accepts is exactly the layout of the chunk it returns |
| `Chunks.ParseRejectsTamperedCrc` | src/chunk.rs:47-53 | a layout whose CRC field holds any value other than the right CRC is rejected |
| `Chunks.ParseRejectsTruncatedLayout` | src/chunk.rs:27-37 | every proper prefix of a layout is rejected |
| `Chunks.FortyTwoByteChunk` | src/chunk.rs:163-209 | a 42-byte payload parses back from its layout with length 42, its type, payload and CRC; the same layout with the CRC field one less is rejected |
| `Chunks.MessageExamples` | src/chunk.rs:163-209 | the test message with type "RuSt" parses with length 42, type displayed as "RuSt" and the message as payload; with the CRC field one less it is rejected |
| `Chunks.ToStringOfRuSt` | src/chunk.rs:143-147 | the type "RuSt" displays as "RuSt" |
| `Primitives.FromToBE32` | src/chunk.rs:31-33 | decoding the big-endian bytes of a `u32` gives the number back |
| `Primitives.ToFromBE32` | src/chunk.rs:47-49 | encoding the decoded big-endian number gives the four bytes back |

## Left out

- `data_as_string` and `Display for Chunk` (src/chunk.rs:59-66, 94-96): they only wrap the standard library's lossy UTF-8 decoding.
- The `crc` crate's table-driven implementation: the CRC is the bit-at-a-time definition with the same parameters. The constant `CRC_32_ALGO` (src/chunk.rs:11-21) is unused by the code and is not modelled.
- Concrete CRC values: the test value 2882656334 and the check value 0xCBF43926 of "123456789" are not evaluated. The message examples take the CRC as a parameter equal to the CRC-32 of type and payload.
- `Chunks.Length`: its body keeps the low 32 bits of the payload length, as the `as u32` cast does, but its contract speaks only of payloads under 2^32 bytes, the only ones a layout can describe.
- `usize` overflow of `len + 8` on 32-bit targets (src/chunk.rs:35): lengths are unbounded naturals.
- `ChunkTypes.TryFromArray`: the `[u8; 4]` argument is a sequence required to have four elements.
- Copies and aliasing: `bytes()`, `as_bytes()` and the slice copies return sequence values, so separate buffers are not distinguished from shared ones.
- The panic is an outcome value (`Panicked`); unwinding is not modelled.
