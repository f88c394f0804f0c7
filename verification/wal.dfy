/**
 The WAL client over an object store, with the store as a map from object
 key to object bytes. `append` writes a new record's layout under the
 ULID's string form; `read` fetches the object, parses the key back into a
 ULID and decodes the bytes. `read` does not check the checksum: callers
 validate the returned record themselves.
 */
module Wal {
  import opened Wrappers
  import opened Ulids
  import opened Records

  /** The bucket's contents: object key to object body. */
  type Store = map<string, seq<u8>>

  /**
   The ULID's text form (`Ulid::to_string`) and its parser (`Ulid::from_string`),
   both from the ulid crate.
   */
  datatype KeyCodec = KeyCodec(format: Ulid -> string, parse: string -> Option<Ulid>)

  /** The parser recovers every ULID from its text form. */
  ghost predicate ParseInvertsFormat(kc: KeyCodec) {
    forall u: Ulid :: kc.parse(kc.format(u)) == Some(u)
  }

  datatype Appended = Appended(store: Store, key: string)

  datatype ReadError =
    | NoSuchKey(key: string)
    | InvalidUlid(key: string)
    | Io(cause: IoError)

  /** `WAL::append` with the store write succeeding and the fresh ULID passed in. */
  function Append(store: Store, kc: KeyCodec, sha256: Hasher, ulid: Ulid, data: seq<u8>): (a: Appended)
    ensures a.key == kc.format(ulid)
    ensures a.store.Keys == store.Keys + {a.key}
    ensures |a.store[a.key]| == |data| + DIGEST_LEN
    ensures FromBytes(ulid, a.store[a.key]) == Success(New(sha256, ulid, data))
    ensures forall k :: k in store && k != a.key ==> a.store[k] == store[k]
  {
    var record := New(sha256, ulid, data);
    var key := kc.format(record.ulid);
    DecodeEncode(record);
    Appended(store[key := ToBytes(record)], key)
  }

  /**
   What `read` needs of the object under `key`: when the key names an object and
   parses as a ULID, the object is at least a digest long (shorter objects make
   `from_bytes` underflow).
   */
  predicate Decodable(store: Store, kc: KeyCodec, key: string) {
    key in store && kc.parse(key).Some? ==> |store[key]| >= DIGEST_LEN
  }

  /** `WAL::read`: fetch, parse the key, decode. No integrity check. */
  function Read(store: Store, kc: KeyCodec, key: string): (r: Result<Record, ReadError>)
    requires Decodable(store, kc, key)
    ensures r.Success? <==> key in store && kc.parse(key).Some?
    ensures key !in store ==> r == Failure(NoSuchKey(key))
    ensures key in store && kc.parse(key).None? ==> r == Failure(InvalidUlid(key))
    ensures r.Success? ==> r.value.ulid == kc.parse(key).value && ToBytes(r.value) == store[key]
  {
    if key !in store then Failure(NoSuchKey(key))
    else
      match kc.parse(key)
      case None => Failure(InvalidUlid(key))
      case Some(ulid) =>
        match FromBytes(ulid, store[key])
        case Failure(e) => Failure(Io(e))
        case Success(record) => Success(record)
  }

  /** Reading the key `append` returned gives back the appended record, and it validates. */
  lemma ReadAfterAppend(store: Store, kc: KeyCodec, sha256: Hasher, ulid: Ulid, data: seq<u8>)
    requires ParseInvertsFormat(kc)
    ensures var a := Append(store, kc, sha256, ulid, data);
      && Decodable(a.store, kc, a.key)
      && Read(a.store, kc, a.key) == Success(New(sha256, ulid, data))
      && ValidateChecksum(sha256, Read(a.store, kc, a.key).value)
  {
    var a := Append(store, kc, sha256, ulid, data);
    assert kc.parse(a.key) == Some(ulid);
  }

  /** Distinct ULIDs have distinct keys. */
  lemma FormatInjective(kc: KeyCodec, u1: Ulid, u2: Ulid)
    requires ParseInvertsFormat(kc)
    ensures kc.format(u1) == kc.format(u2) <==> u1 == u2
  {
    assert kc.parse(kc.format(u1)) == Some(u1);
    assert kc.parse(kc.format(u2)) == Some(u2);
  }

  /** The storage keys of a batch's ULIDs. */
  function BatchKeys(kc: KeyCodec, batch: seq<(Ulid, seq<u8>)>): set<string> {
    set i | 0 <= i < |batch| :: kc.format(batch[i].0)
  }

  /** One `append` per `(ulid, payload)` pair, in order. */
  function AppendAll(store: Store, kc: KeyCodec, sha256: Hasher, batch: seq<(Ulid, seq<u8>)>): (s: Store)
    ensures s.Keys == store.Keys + BatchKeys(kc, batch)
    ensures forall k :: k in store && k !in BatchKeys(kc, batch) ==> s[k] == store[k]
    decreases |batch|
  {
    if |batch| == 0 then store
    else
      var next := Append(store, kc, sha256, batch[0].0, batch[0].1).store;
      assert BatchKeys(kc, batch) == {kc.format(batch[0].0)} + BatchKeys(kc, batch[1..]) by {
        forall i | 1 <= i < |batch|
          ensures kc.format(batch[i].0) in BatchKeys(kc, batch[1..])
        {
          assert batch[i] == batch[1..][i - 1];
        }
      }
      AppendAll(next, kc, sha256, batch[1..])
  }

  ghost predicate DistinctUlids(batch: seq<(Ulid, seq<u8>)>) {
    forall i, j :: 0 <= i < j < |batch| ==> batch[i].0 != batch[j].0
  }

  /**
   After appending a batch of records with distinct ULIDs, the object under
   each record's key is that record's layout: later appends never overwrite
   earlier ones.
   */
  lemma {:induction false} StoredAfterAppendAll(store: Store, kc: KeyCodec, sha256: Hasher, batch: seq<(Ulid, seq<u8>)>, i: nat)
    requires ParseInvertsFormat(kc)
    requires DistinctUlids(batch)
    requires i < |batch|
    ensures var s := AppendAll(store, kc, sha256, batch);
      s[kc.format(batch[i].0)] == ToBytes(New(sha256, batch[i].0, batch[i].1))
    decreases |batch|
  {
    var a := Append(store, kc, sha256, batch[0].0, batch[0].1);
    var rest := batch[1..];
    assert AppendAll(a.store, kc, sha256, rest) == AppendAll(store, kc, sha256, batch);
    if i == 0 {
      forall j | 0 <= j < |rest|
        ensures kc.format(rest[j].0) != a.key
      {
        assert rest[j] == batch[j + 1];
        FormatInjective(kc, rest[j].0, batch[0].0);
      }
      assert a.key !in BatchKeys(kc, rest);
    } else {
      assert DistinctUlids(rest) by {
        forall j, k | 0 <= j < k < |rest|
          ensures rest[j].0 != rest[k].0
        {
          assert rest[j] == batch[j + 1] && rest[k] == batch[k + 1];
        }
      }
      StoredAfterAppendAll(a.store, kc, sha256, rest, i - 1);
      assert rest[i - 1] == batch[i];
    }
  }

  /** After appending a batch with distinct ULIDs, every record reads back intact and validates. */
  lemma ReadAfterAppendAll(store: Store, kc: KeyCodec, sha256: Hasher, batch: seq<(Ulid, seq<u8>)>, i: nat)
    requires ParseInvertsFormat(kc)
    requires DistinctUlids(batch)
    requires i < |batch|
    ensures var s := AppendAll(store, kc, sha256, batch);
      var key := kc.format(batch[i].0);
      && Decodable(s, kc, key)
      && Read(s, kc, key) == Success(New(sha256, batch[i].0, batch[i].1))
      && ValidateChecksum(sha256, Read(s, kc, key).value)
  {
    var record := New(sha256, batch[i].0, batch[i].1);
    StoredAfterAppendAll(store, kc, sha256, batch, i);
    assert kc.parse(kc.format(batch[i].0)) == Some(batch[i].0);
    DecodeEncode(record);
  }

  /**
   `read` returns whatever the object decodes to, valid or not: a stored object
   whose checksum bytes do not match its payload is read successfully.
   */
  lemma ReadSkipsIntegrityCheck(kc: KeyCodec, sha256: Hasher, ulid: Ulid)
    requires ParseInvertsFormat(kc)
    ensures var bad := sha256([])[0 := ((sha256([])[0] as int + 1) % 256) as u8];
      var store := map[kc.format(ulid) := bad];
      && Decodable(store, kc, kc.format(ulid))
      && Read(store, kc, kc.format(ulid)).Success?
      && !ValidateChecksum(sha256, Read(store, kc, kc.format(ulid)).value)
  {
    var good := sha256([]);
    var bad := good[0 := ((good[0] as int + 1) % 256) as u8];
    var key := kc.format(ulid);
    var store := map[key := bad];
    assert kc.parse(key) == Some(ulid);
    DigestOnlyBufferIsEmptyPayload(ulid, bad);
    assert bad[0] != good[0];
  }
}
