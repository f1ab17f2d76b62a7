# Fork-tip bookkeeping of the grin chain pipeline, in Dafny

This project models the base types of the block-chain pipeline in
`chain/src/types.rs`: the `Lineage` that names a fork by its branch numbers,
the `Tip` that is the head of one fork, and the binary encodings of both
through the `ser` writer and reader.

- `ser.dfy`, module `Ser`: the serialisation primitives these types are
  written with. The `ser` module itself is not part of this model. Here a
  writer is a class holding a growing byte buffer and a reader is a class
  holding a byte sequence and a cursor. `write_u32` and `write_u64` are
  big-endian fixed-width encoders (`EncodeU32`, `EncodeU64`). `read_u32`,
  `read_u64` and the 32-byte hash read fail with `UnexpectedEof` when the
  stream ends inside the field; this in-memory reader then leaves the cursor
  where it was. Each
  read is specified by a pure decoding function (`DecodeU32`, `DecodeU64`,
  `DecodeFixed`) that returns the value and the new cursor. The predicate
  `Follows` ties a reader method to its decoding function.
- `types.dfy`, module `Types`: the types themselves.
  - `Lineage` and `Tip` are values (datatypes), as their Rust structs are.
    `Lineage::new`, `last_branch`, `Tip::new` and `Tip::append` are
    functions.
  - `Lineage::write`/`read` and `Tip::write`/`read` are methods that drive
    the writer and reader. `WriteLineage` and `ReadLineage` keep the loops of
    the source.
  - Each method is proved against a pure encoding or decoding function
    (`EncodeLineage`, `DecodeLineage`, `EncodeTip`, `DecodeTip`), and the
    round-trip and truncation properties are lemmas about those functions.

A block hash is an opaque sequence of 32 bytes (`Hash`). The hash module is
not part of this model.

Behaviour of the code that the model keeps on purpose:

- The lineage length is written as `len as u32` (`AsU32`), which keeps only
  the low 32 bits. The round trip therefore holds only for lineages of fewer
  than 2^32 branches. `DecodeEncodedLineage` says exactly what any lineage
  decodes to: its first `len mod 2^32` branches.
- A lineage is meant to be non-empty, but nothing in the type enforces it.
  The decoder accepts a count of 0 (`EmptyLineageDecodes`), and `last_branch`
  panics on such a lineage. That is why `LastBranch` requires a non-empty
  lineage.
- The fields of a tip are `height`, `last_block_h`, `prev_block_h` and
  `lineage`, in that order. The encoding has no length prefix for the
  hashes.

## Model

| member | source | states |
|---|---|---|
| `Types.NewLineage` | chain/src/types.rs:30-33 | the genesis lineage has exactly one branch, and its last branch is 0 |
| `Types.LastBranch` | chain/src/types.rs:34-39 | defined only on a non-empty lineage (the source panics otherwise); the lineage is the lineage without its last element, extended by the result |
| `Types.LastBranchOfFork` | chain/src/types.rs:21-27 | a fork made by adding branch number `b` to any parent lineage has `b` as its last branch |
| `Types.EncodeLineage` | chain/src/types.rs:43-50 | a lineage of n branches is written as exactly 4 + 4·n bytes |
| `Types.EncodeLineageLayout` | chain/src/types.rs:44-48 | the first 4 bytes are the u32 count, and branch i is the u32 at offset 4 + 4·i, in order |
| `Types.WriteLineage` | chain/src/types.rs:43-51 | `Lineage::write` appends exactly the encoding of the lineage to the writer's buffer (count, then each branch in a loop) |
| `Types.DecodeBranchesSucceeds` | chain/src/types.rs:57-59 | reading `count` branches succeeds exactly when 4·count bytes remain |
| `Types.DecodeLineageSucceeds` | chain/src/types.rs:54-61 | decoding succeeds exactly when the count and all the branches it announces are in the stream, and then consumes exactly 4 + 4·count bytes |
| `Types.ReadLineage` | chain/src/types.rs:53-62 | `Lineage::read` returns what `DecodeLineage` decodes from the cursor, moves the cursor past exactly the bytes read, and fails exactly when the decoder fails |
| `Types.DecodeEncodedLineage` | chain/src/types.rs:44-61 | any encoded lineage, anywhere in a stream, decodes to its first `len as u32` branches |
| `Types.LineageRoundTrip` | chain/src/types.rs:44-61 | a lineage of fewer than 2^32 branches decodes to itself, reading exactly its 4 + 4·n bytes and leaving the following bytes unread |
| `Types.OversizedLineageTruncated` | chain/src/types.rs:45 | a lineage of 2^32 or more branches decodes to a different lineage, because of the `as u32` cast |
| `Types.EmptyLineageDecodes` | chain/src/types.rs:54-61 | a stream whose count is 0 decodes to the empty lineage, on which `last_branch` is undefined |
| `Types.TruncatedLineageFails` | chain/src/types.rs:55-59 | a stream that ends anywhere inside a lineage's encoding makes the decoder fail |
| `Types.NewTip` | chain/src/types.rs:80-88 | the genesis tip has height 0, the genesis hash as both last and previous block, and the lineage `[0]` |
| `Types.Append` | chain/src/types.rs:90-98 | the height grows by one, the new block becomes the last block, the old last block becomes the previous block, and the lineage is unchanged; requires a height below the u64 maximum |
| `Types.AppendsFromGenesis` | chain/src/types.rs:81-98 | k appends from `Tip::new(g)` give height k and lineage `[0]`, with the last two hashes pushed (or `g`) as last and previous block |
| `Types.AppendsKeepLineage` | chain/src/types.rs:91-97 | any number of appends keeps the starting tip's lineage |
| `Types.EncodeTip` | chain/src/types.rs:102-108 | a tip is written as 8 + 32 + 32 + 4 + 4·n bytes |
| `Types.TipLayout` | chain/src/types.rs:103-108 | the encoding holds the u64 height, then the last hash, then the previous hash, then the lineage encoding |
| `Types.WriteTip` | chain/src/types.rs:102-109 | `Tip::write` appends exactly the encoding of the tip to the writer's buffer |
| `Types.TipFieldsAt` | chain/src/types.rs:112-115 | each fixed-size field of a tip is read back from a stream that holds the encoding up to the end of that field |
| `Types.ReadTip` | chain/src/types.rs:111-124 | `Tip::read` returns what `DecodeTip` decodes from the cursor, moves the cursor past exactly the bytes read, and fails exactly when the decoder fails |
| `Types.TipRoundTrip` | chain/src/types.rs:103-123 | a tip whose lineage has fewer than 2^32 branches decodes to an equal tip, reading exactly its encoding and leaving the following bytes unread |
| `Types.TruncatedTipFails` | chain/src/types.rs:112-116 | a stream that ends anywhere inside a tip's encoding makes the decoder fail |
| `Ser.AsU32` | chain/src/types.rs:45 | the `as u32` cast keeps lengths below 2^32 unchanged and shrinks only lengths of at least 2^32 |
| `Ser.EncodeU32` | chain/src/types.rs:47 | `write_u32` emits 4 bytes whose big-endian value is the number written |
| `Ser.EncodeU64` | chain/src/types.rs:104 | `write_u64` emits 8 bytes whose big-endian value is the number written |
| `Ser.FromBeToBe` | chain/src/types.rs:55 | reading back the big-endian bytes of a number gives the number |
| `Ser.DecodeU32Encoded` | chain/src/types.rs:58 | `read_u32` reads back what `write_u32` wrote, wherever it sits in a stream, consuming 4 bytes |
| `Ser.DecodeU64Encoded` | chain/src/types.rs:113 | `read_u64` reads back what `write_u64` wrote, consuming 8 bytes |
| `Ser.Writer.WriteU32` | chain/src/types.rs:45 | appends the 4 bytes of the number to the buffer |
| `Ser.Writer.WriteU64` | chain/src/types.rs:104 | appends the 8 bytes of the number to the buffer |
| `Ser.Writer.WriteFixedBytes` | chain/src/types.rs:105-106 | appends the bytes as they are, without a length prefix |
| `Ser.Reader.ReadU32` | chain/src/types.rs:55 | reads 4 bytes at the cursor, or fails on a short stream and leaves the cursor in place (a property of the in-memory reader) |
| `Ser.Reader.ReadU64` | chain/src/types.rs:113 | reads 8 bytes at the cursor, or fails on a short stream and leaves the cursor in place (a property of the in-memory reader) |
| `Ser.Reader.ReadFixedBytes` | chain/src/types.rs:114-115 | reads a fixed number of bytes (a 32-byte hash) at the cursor, or fails on a short stream |

## Left out

- `ChainStore` (chain/src/types.rs:136-154) is an interface for persistent storage, with no implementation in this file, and its `Send + Sync` bound is about concurrent access. Only the `ChainError` datatype of its results is modelled.
- `ChainAdapter` and `NoopAdapter` (chain/src/types.rs:159-168) are a fire-and-forget notification, and the no-op has no behaviour to state.
- Fork selection, reorganisation and tie-breaking are not in this file. Creating a new lineage on divergence is among them.
- The `ser` module and the hash module are not part of this model. The writer cannot fail here, because it is an in-memory buffer. The I/O errors of a real writer or reader are not modelled, and the only read error is `UnexpectedEof`.
- `Types.ReadLineage`: on failure, the contract fixes only the error and that the cursor stays within the stream. It does not say how far a partly read lineage moved the cursor.
- `Types.ReadTip`: on failure, the contract fixes only the error and that the cursor stays within the stream.
- `Types.Append`: requires a height below 2^64 - 1. It does not model the u64 overflow of `self.height + 1`, which panics in debug builds and wraps in release builds.
- `Vec::with_capacity(len as usize)` in `Lineage::read` (chain/src/types.rs:56) is not modelled. It reserves room for the announced count before any branch is read, so a huge count (up to 2^32 - 1, about 16 GiB of branches) can abort the process when the allocation fails, and on a 32-bit target panics with a capacity overflow for any count of 2^29 or more. The model has no such outcome: for a short stream with a huge announced count it reports `UnexpectedEof`, as `DecodeLineageSucceeds`, `TruncatedLineageFails` and `Types.ReadLineage` state.
- `Ser.Reader.ReadU32`, `Ser.Reader.ReadU64` and `Ser.Reader.ReadFixedBytes` promise that a failed read leaves the cursor where it was. That is a property of the in-memory reader modelled here only; a reader over a `std::io::Read` stream built on `read_exact` makes no such promise, and no other member relies on it.
- `Debug` and `Clone` derivations are not modelled. Cloning a lineage is modelled as value sharing.
