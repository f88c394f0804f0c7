# gulog record codec and WAL client, in Dafny

gulog is a write-ahead log kept in an S3-compatible object store. Each log
entry is a `Record`: a ULID, an opaque byte payload and the SHA-256 checksum of
that payload. A record is stored as one object. The object's key is the ULID's
text form, and its body is the payload followed by the 32 checksum bytes. The
ULID is not part of the body, and there is no length prefix.

This project models the following:

- `Records`: the `Record` struct, `calculate_checksum`, `new`,
  `validate_checksum`, `to_bytes` and `from_bytes`. `from_bytes` is modelled
  through the two `read_exact` calls it makes on the byte slice.
- `RecordOrder`: the `PartialEq`, `Eq`, `PartialOrd` and `Ord` impls for
  `Record`. All of them compare the ULID only.
- `Ulids`: the ULID as a 128-bit integer with the integer order. The module
  also splits a ULID into a high 48-bit part and a low 80-bit part, and proves
  that ULID order is the order of the high parts first, the low parts second.
  Under the ulid crate's format, which is not part of this model, those parts
  are the creation timestamp and the random part.
- `Wal`: `append` and `read` over a store given as a map from key to bytes.
  Reading back what was appended gives the appended record, and that record
  validates. `read` itself never checks the checksum.

SHA-256 is a parameter `sha256: Hasher`, a total function whose result is
always 32 bytes. The fresh ULID that `Record::new` draws is a parameter too.
The ULID text conversions (`to_string` and `from_string`) are a
`KeyCodec` parameter. The WAL lemmas assume that parsing a formatted ULID gives
the same ULID back (`ParseInvertsFormat`).

Where a reader might expect a truncation error, an integrity check inside
`read` or a namespaced key, the model follows the code:

- `from_bytes` has no truncation error. It computes `len - 32` unchecked, so
  `FromBytes` requires at least 32 bytes.
- `read` does not verify the checksum. `Wal.ReadSkipsIntegrityCheck`
  exhibits a stored object that reads successfully but fails validation.
- The storage key is the bare ULID string, with no namespace prefix or suffix.

## Model

| member | source | states |
|---|---|---|
| Records.New | src/main.rs:30-39 | the new record keeps the given ULID and payload, passes `validate_checksum`, and serialises to exactly 32 bytes more than its payload |
| Records.CalculateChecksum | src/main.rs:21-28 | the checksum is the SHA-256 digest of exactly the payload bytes, 32 bytes wide, and depends on nothing else |
| Records.ValidateChecksum | src/main.rs:42-44 | true exactly when the stored checksum, the last 32 bytes of the record's layout, equals the hash of the payload |
| Records.ToBytes | src/main.rs:46-54 | the layout is the payload followed by the 32-byte checksum: its length is payload length + 32, its prefix is the payload, its suffix is the checksum |
| Records.ReadExact | src/main.rs:59-63 | `read_exact` succeeds exactly when enough bytes remain; it then returns exactly `n` bytes, and those bytes followed by the remaining slice are the original slice |
| Records.FromBytes | src/main.rs:56-70 | on any buffer of at least 32 bytes, decoding succeeds, uses the supplied ULID unchanged, and splits the buffer into payload and checksum with nothing lost |
| Records.FromBytesSplitsAtDigest | src/main.rs:57-63 | the decoded payload is the buffer without its last 32 bytes, and the checksum is those 32 bytes |
| Records.DigestOnlyBufferIsEmptyPayload | src/main.rs:57-70 | a buffer of exactly 32 bytes decodes to an empty payload, with the whole buffer as checksum |
| Records.DecodeEncode | src/main.rs:47-70 | decoding a record's layout under its own ULID returns the same record: ULID, payload and checksum |
| Records.EncodeDecode | src/main.rs:47-70 | re-encoding a decoded buffer reproduces the buffer byte for byte |
| Records.RoundTripPreservesValidity | src/main.rs:42-70 | a record validates after a to_bytes/from_bytes round trip exactly when it validated before |
| Records.NewRecordRoundTrips | src/main.rs:225-232 | a freshly built record validates, its layout decodes back to it, and the decoded copy validates too; this holds for every payload, the empty one included |
| Records.ChecksumTamperDetected | src/main.rs:42-70 | changing any one of the trailing 32 checksum bytes of a valid layout makes the decoded record fail validation |
| Records.PayloadTamperUndetectedOnlyOnCollision | src/main.rs:20-44 | changing one payload byte of a valid layout yields a different payload with the old checksum; that copy validates only if the two payloads have the same SHA-256 digest |
| Ulids.Compare | src/main.rs:87-91 | ULID comparison answers Less, Equal or Greater exactly as the two 128-bit integers compare |
| Ulids.CompareIsTimeThenRandom | src/main.rs:87-91 | one ULID is less than another exactly when its timestamp is smaller, or the timestamps tie and its random part is smaller |
| RecordOrder.Eq | src/main.rs:73-77 | two records are equal exactly when their ULIDs compare Equal; payload and checksum play no part |
| RecordOrder.Cmp | src/main.rs:87-91 | `cmp` is Equal exactly when `eq` holds, so `Ord` agrees with `PartialEq`; it is Less or Greater as the ULIDs compare, and payloads play no part |
| RecordOrder.PartialCmp | src/main.rs:81-85 | `partial_cmp` is always defined and always equals `Some(cmp)` |
| RecordOrder.EqIgnoresContent | src/main.rs:73-77 | two records with the same ULID are equal and compare Equal, whatever their payloads and checksums |
| RecordOrder.EqIsEquivalence | src/main.rs:73-79 | record equality is reflexive, symmetric and transitive, as `Eq` promises |
| RecordOrder.CmpAntisymmetric | src/main.rs:87-91 | swapping the operands of `cmp` reverses its answer |
| RecordOrder.LeIsTotalOrderModuloEq | src/main.rs:79-91 | the `<=` derived from `cmp` is reflexive, total and transitive, and `a <= b && b <= a` holds exactly when the records are equal |
| RecordOrder.CmpIsTimeThenRandom | src/main.rs:87-91 | records sort by creation timestamp first and by the ULID's random part second |
| RecordOrder.DistinctUlidsUnequal | src/main.rs:246-254 | records built with different ULIDs are unequal and never compare Equal, whatever their payloads |
| RecordOrder.DecodedCopyIsEqual | src/main.rs:225-232 | a new record equals the record decoded from its own layout |
| Wal.Append | src/main.rs:128-142 | append returns the ULID's text form as key; it adds that key and keeps every other object; the stored bytes are 32 longer than the payload and decode to the new record |
| Wal.Read | src/main.rs:144-156 | read returns a missing-key error when nothing is stored under the key, and an invalid-ULID error when the key does not parse; otherwise, for an object of at least 32 bytes, it succeeds with the parsed ULID and a record whose layout is exactly the stored bytes |
| Wal.ReadAfterAppend | src/main.rs:163-172 | reading the key that append returned gives back exactly the appended record, and that record passes `validate_checksum` |
| Wal.FormatInjective | src/main.rs:130-136 | two ULIDs get the same storage key only if they are the same ULID |
| Wal.AppendAll | src/main.rs:128-142 | after a sequence of appends, the store's keys are exactly the old keys plus the appended ULIDs' keys, and objects under every other key are untouched |
| Wal.StoredAfterAppendAll | src/main.rs:128-142 | after appending records with distinct ULIDs, the object under each record's key is exactly that record's layout, payload then checksum |
| Wal.ReadAfterAppendAll | src/main.rs:128-156 | after appending records with distinct ULIDs, each reads back exactly as appended and validates: later appends never overwrite earlier records |
| Wal.ReadSkipsIntegrityCheck | src/main.rs:144-156 | a stored object whose checksum does not match its payload is still read successfully, and the record returned fails validation |

## Left out

- `MinioWAL::new` (endpoint, region, credentials, bucket name) is client configuration. The store is an explicit map instead.
- Wal.Append: the `put_object` call is assumed to succeed. Transport and service errors, and the `async` scheduling of the call, are not modelled.
- Wal.Read: a stored object shorter than 32 bytes under a key that parses is excluded by the `Decodable` precondition. On it the source's `read` reaches `from_bytes`, whose `len - 32` underflows, and the program panics.
- Wal.Read: failures of `get_object` and of body collection are not modelled, apart from a missing key.
- `main` is the demo entry point, and it prints. Its append, read and validate sequence is stated as `Wal.ReadAfterAppend`.
- The `#[ignore]` tests that only call `unimplemented!()` are left out, because they assert nothing.
- SHA-256 internals (the `sha2` crate) are left out. The hash is an arbitrary function with a 32-byte result.
- Records.PayloadTamperUndetectedOnlyOnCollision: detection of corrupted payload bytes is stated only up to a SHA-256 collision. Collision resistance cannot be proved of an abstract hash.
- ULID generation (`Ulid::new`) reads the clock and a random source, so the fresh ULID is a parameter. The model does not state that fresh ULIDs are distinct or time-ordered. Lemmas that need distinct ULIDs require it.
- The ULID layout (a 48-bit millisecond timestamp above 80 random bits) is the ulid crate's own format. It is assumed here, not read from the repository's code. So `Ulids.CompareIsTimeThenRandom` and `RecordOrder.CmpIsTimeThenRandom` mean "creation time first" only under that assumption. `Ulids.FromParts` is an unlisted helper that builds a ULID from the two parts.
- The Crockford base32 text form of ULIDs is left out. `KeyCodec` stands for it, and only parse-after-format is assumed.
- Records.ToBytes: the `io::Result` wrapper is dropped. `write_all` into a `Vec<u8>` cannot fail, so `to_bytes` always returns `Ok`.
- Records.FromBytes: buffers shorter than 32 bytes are excluded by a precondition. In the source, `len - 32` underflows on them and the program panics; it returns no error.
- The derived `Debug` impl is left out.
