/**
 The WAL record and its storage layout. A record carries a ULID, a payload
 and a 32-byte SHA-256 checksum of the payload. Only `data ++ checksum` is
 stored: the ULID travels in the storage key, and there is no length prefix.
 */
module Records {
  import opened Wrappers
  import opened Ulids

  type u8 = x: int | 0 <= x < 256

  /** Width of a SHA-256 digest, and of the stored checksum. */
  const DIGEST_LEN := 32

  type Digest = s: seq<u8> | |s| == DIGEST_LEN witness seq(DIGEST_LEN, _ => 0)

  /** SHA-256 is external code: every operation that hashes takes it as a parameter. */
  type Hasher = seq<u8> -> Digest

  datatype Record = Record(ulid: Ulid, data: seq<u8>, checksum: Digest)

  /** The error of `Read::read_exact` when the source runs out. */
  datatype IoError = UnexpectedEof

  /** `calculate_checksum`: the SHA-256 digest of the payload, copied into a 32-byte array. */
  function CalculateChecksum(sha256: Hasher, data: seq<u8>): (c: Digest)
    ensures |c| == DIGEST_LEN && c == sha256(data)
  {
    sha256(data)
  }

  /** `Record::new`, with the freshly generated ULID passed in. */
  function New(sha256: Hasher, ulid: Ulid, data: seq<u8>): (r: Record)
    ensures r.ulid == ulid && r.data == data
    ensures ValidateChecksum(sha256, r)
    ensures |ToBytes(r)| == |data| + DIGEST_LEN
  {
    Record(ulid, data, CalculateChecksum(sha256, data))
  }

  /** `validate_checksum`: the last 32 bytes of the record's layout are the digest of its payload. */
  predicate ValidateChecksum(sha256: Hasher, r: Record)
    ensures ValidateChecksum(sha256, r) <==> ToBytes(r)[|r.data|..] == sha256(r.data)
  {
    r.checksum == CalculateChecksum(sha256, r.data)
  }

  /** `Record::to_bytes`: the payload followed by the checksum. */
  function ToBytes(r: Record): (bytes: seq<u8>)
    ensures |bytes| == |r.data| + DIGEST_LEN
    ensures bytes[..|r.data|] == r.data
    ensures bytes[|r.data|..] == r.checksum
  {
    r.data + r.checksum
  }

  /**
   `read_exact` on a byte slice: takes exactly `n` bytes off the front and
   returns them with the rest of the slice, or fails if fewer remain.
   */
  function ReadExact(src: seq<u8>, n: nat): (r: Result<(seq<u8>, seq<u8>), IoError>)
    ensures r.Success? <==> n <= |src|
    ensures r.Success? ==> |r.value.0| == n && r.value.0 + r.value.1 == src
  {
    if n <= |src| then Success((src[..n], src[n..])) else Failure(UnexpectedEof)
  }

  /**
   `Record::from_bytes`: the last 32 bytes are the checksum, everything before
   them the payload. The source computes `len - 32` unchecked, so a buffer
   shorter than a digest is outside its domain.
   */
  function FromBytes(ulid: Ulid, bytes: seq<u8>): (r: Result<Record, IoError>)
    requires |bytes| >= DIGEST_LEN
    ensures r.Success?
    ensures r.value.ulid == ulid
    ensures r.value.data + r.value.checksum == bytes
  {
    var dataLen := |bytes| - DIGEST_LEN;
    match ReadExact(bytes, dataLen)
    case Failure(e) => Failure(e)
    case Success((data, rest)) =>
      match ReadExact(rest, DIGEST_LEN)
      case Failure(e) => Failure(e)
      case Success((checksum, _)) => Success(Record(ulid, data, checksum))
  }

  /** The decoded payload is the buffer minus its last 32 bytes, the checksum those bytes. */
  lemma FromBytesSplitsAtDigest(ulid: Ulid, bytes: seq<u8>)
    requires |bytes| >= DIGEST_LEN
    ensures FromBytes(ulid, bytes).value.data == bytes[..|bytes| - DIGEST_LEN]
    ensures FromBytes(ulid, bytes).value.checksum == bytes[|bytes| - DIGEST_LEN..]
  {
    var r := FromBytes(ulid, bytes).value;
    assert bytes[..|r.data|] == r.data;
  }

  /** A buffer holding only a digest decodes to an empty payload. */
  lemma DigestOnlyBufferIsEmptyPayload(ulid: Ulid, bytes: seq<u8>)
    requires |bytes| == DIGEST_LEN
    ensures FromBytes(ulid, bytes) == Success(Record(ulid, [], bytes))
  {
    FromBytesSplitsAtDigest(ulid, bytes);
  }

  /** Decoding what `to_bytes` wrote, under the record's own ULID, gives the record back. */
  lemma DecodeEncode(r: Record)
    ensures FromBytes(r.ulid, ToBytes(r)) == Success(r)
  {
    FromBytesSplitsAtDigest(r.ulid, ToBytes(r));
  }

  /** Encoding a decoded buffer reproduces the buffer. */
  lemma EncodeDecode(ulid: Ulid, bytes: seq<u8>)
    requires |bytes| >= DIGEST_LEN
    ensures ToBytes(FromBytes(ulid, bytes).value) == bytes
  {
  }

  /** A round trip through the storage layout keeps the checksum's verdict. */
  lemma RoundTripPreservesValidity(sha256: Hasher, r: Record)
    ensures ValidateChecksum(sha256, FromBytes(r.ulid, ToBytes(r)).value) <==> ValidateChecksum(sha256, r)
  {
    DecodeEncode(r);
  }

  /** A fresh record passes validation, and so does its decoded copy; an empty payload included. */
  lemma NewRecordRoundTrips(sha256: Hasher, ulid: Ulid, data: seq<u8>)
    ensures var r := New(sha256, ulid, data);
      && ValidateChecksum(sha256, r)
      && FromBytes(ulid, ToBytes(r)) == Success(r)
      && ValidateChecksum(sha256, FromBytes(ulid, ToBytes(r)).value)
  {
    DecodeEncode(New(sha256, ulid, data));
  }

  /** Changing one byte of the stored checksum makes the decoded record fail validation. */
  lemma ChecksumTamperDetected(sha256: Hasher, r: Record, i: nat, b: u8)
    requires ValidateChecksum(sha256, r)
    requires |r.data| <= i < |r.data| + DIGEST_LEN
    requires b != ToBytes(r)[i]
    ensures !ValidateChecksum(sha256, FromBytes(r.ulid, ToBytes(r)[i := b]).value)
  {
    var n := |r.data|;
    var tampered := ToBytes(r)[i := b];
    FromBytesSplitsAtDigest(r.ulid, tampered);
    var d := FromBytes(r.ulid, tampered).value;
    assert d.data == r.data by {
      assert forall k :: 0 <= k < n ==> tampered[k] == r.data[k];
    }
    assert d.checksum[i - n] == b != r.checksum[i - n];
  }

  /**
   Changing one payload byte goes unnoticed only if the altered payload has the
   same SHA-256 digest as the original: a collision.
   */
  lemma PayloadTamperUndetectedOnlyOnCollision(sha256: Hasher, r: Record, i: nat, b: u8)
    requires ValidateChecksum(sha256, r)
    requires i < |r.data|
    requires b != r.data[i]
    ensures var d := FromBytes(r.ulid, ToBytes(r)[i := b]).value;
      && d.data != r.data
      && d.checksum == r.checksum
      && (ValidateChecksum(sha256, d) <==> sha256(d.data) == sha256(r.data))
  {
    var n := |r.data|;
    var tampered := ToBytes(r)[i := b];
    FromBytesSplitsAtDigest(r.ulid, tampered);
    var d := FromBytes(r.ulid, tampered).value;
    assert d.data[i] == b;
    assert d.checksum == r.checksum by {
      assert forall k :: 0 <= k < DIGEST_LEN ==> tampered[n + k] == r.checksum[k];
    }
  }
}
