/**
 Equality and ordering of records. Both look at the ULID alone: payload and
 checksum never take part in a comparison.
 */
module RecordOrder {
  import opened Wrappers
  import opened Ulids
  import opened Records

  /** `PartialEq::eq` for `Record`. */
  predicate Eq(a: Record, b: Record)
    ensures Eq(a, b) <==> Compare(a.ulid, b.ulid) == Equal
  {
    a.ulid == b.ulid
  }

  /** `Ord::cmp` for `Record`. */
  function Cmp(a: Record, b: Record): (o: Ordering)
    ensures o == Equal <==> Eq(a, b)
    ensures o == Less <==> a.ulid < b.ulid
    ensures o == Greater <==> b.ulid < a.ulid
  {
    Compare(a.ulid, b.ulid)
  }

  /** `PartialOrd::partial_cmp` for `Record`: always defined, and agrees with `Cmp`. */
  function PartialCmp(a: Record, b: Record): (o: Option<Ordering>)
    ensures o == Some(Cmp(a, b))
  {
    Some(Compare(a.ulid, b.ulid))
  }

  /** `a <= b` as derived from `Cmp`. */
  predicate Le(a: Record, b: Record) {
    Cmp(a, b) != Greater
  }

  /** Records with the same ULID are equal whatever their payloads and checksums. */
  lemma EqIgnoresContent(u: Ulid, d1: seq<u8>, c1: Digest, d2: seq<u8>, c2: Digest)
    ensures Eq(Record(u, d1, c1), Record(u, d2, c2))
    ensures Cmp(Record(u, d1, c1), Record(u, d2, c2)) == Equal
  {
  }

  /** `Eq` is an equivalence relation. */
  lemma EqIsEquivalence(a: Record, b: Record, c: Record)
    ensures Eq(a, a)
    ensures Eq(a, b) <==> Eq(b, a)
    ensures Eq(a, b) && Eq(b, c) ==> Eq(a, c)
  {
  }

  /** Swapping the operands of `Cmp` reverses the answer. */
  lemma CmpAntisymmetric(a: Record, b: Record)
    ensures Cmp(b, a) == Cmp(a, b).Reverse()
  {
  }

  /** `Le` is a total preorder whose equivalence classes are exactly those of `Eq`. */
  lemma LeIsTotalOrderModuloEq(a: Record, b: Record, c: Record)
    ensures Le(a, a)
    ensures Le(a, b) || Le(b, a)
    ensures Le(a, b) && Le(b, c) ==> Le(a, c)
    ensures Le(a, b) && Le(b, a) <==> Eq(a, b)
  {
  }

  /** Ordering records is ordering their creation times first, their random parts second. */
  lemma CmpIsTimeThenRandom(a: Record, b: Record)
    ensures Cmp(a, b) == Less <==>
      || Timestamp(a.ulid) < Timestamp(b.ulid)
      || (Timestamp(a.ulid) == Timestamp(b.ulid) && RandomPart(a.ulid) < RandomPart(b.ulid))
  {
    CompareIsTimeThenRandom(a.ulid, b.ulid);
  }

  /** Records built from distinct ULIDs are unequal, whatever their payloads. */
  lemma DistinctUlidsUnequal(sha256: Hasher, u1: Ulid, d1: seq<u8>, u2: Ulid, d2: seq<u8>)
    requires u1 != u2
    ensures !Eq(New(sha256, u1, d1), New(sha256, u2, d2))
    ensures Cmp(New(sha256, u1, d1), New(sha256, u2, d2)) != Equal
  {
  }

  /** A record equals its decoded copy, as the empty-payload test checks. */
  lemma DecodedCopyIsEqual(sha256: Hasher, ulid: Ulid, data: seq<u8>)
    ensures var r := New(sha256, ulid, data);
      Eq(r, FromBytes(r.ulid, ToBytes(r)).value)
  {
  }
}
