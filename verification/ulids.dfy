/**
 Record identifiers. A ULID is a 128-bit unsigned integer: the high 48 bits
 are a millisecond timestamp and the low 80 bits are random. `Ulid` derives
 its order from the integer, so comparing ULIDs compares timestamps first and
 random parts second.
 */
module Ulids {

  const TIME_BITS := 48
  const RANDOM_BITS := 80

  /** 2^128, 2^48 and 2^80. */
  const ULID_LIMIT: nat := 0x1_0000_0000_0000_0000_0000_0000_0000_0000
  const TIME_LIMIT: nat := 0x1_0000_0000_0000
  const RANDOM_LIMIT: nat := 0x1_0000_0000_0000_0000_0000

  type Ulid = x: nat | x < ULID_LIMIT

  /** Rust's `std::cmp::Ordering`. */
  datatype Ordering = Less | Equal | Greater {
    function Reverse(): Ordering {
      match this
      case Less => Greater
      case Equal => Equal
      case Greater => Less
    }
  }

  /** `Ord::cmp` on the underlying u128. */
  function Compare(a: Ulid, b: Ulid): (o: Ordering)
    ensures o == Less <==> a < b
    ensures o == Equal <==> a == b
    ensures o == Greater <==> b < a
  {
    if a < b then Less else if a == b then Equal else Greater
  }

  /** The ULID whose timestamp is `time` and whose random part is `random`. */
  function FromParts(time: nat, random: nat): (u: Ulid)
    requires time < TIME_LIMIT && random < RANDOM_LIMIT
    ensures Timestamp(u) == time && RandomPart(u) == random
  {
    PartsInRange(time, random);
    time * RANDOM_LIMIT + random
  }

  function Timestamp(u: Ulid): nat {
    u / RANDOM_LIMIT
  }

  function RandomPart(u: Ulid): nat {
    u % RANDOM_LIMIT
  }

  lemma PartsInRange(time: nat, random: nat)
    requires time < TIME_LIMIT && random < RANDOM_LIMIT
    ensures time * RANDOM_LIMIT + random < ULID_LIMIT
    ensures (time * RANDOM_LIMIT + random) / RANDOM_LIMIT == time
    ensures (time * RANDOM_LIMIT + random) % RANDOM_LIMIT == random
  {
    assert time * RANDOM_LIMIT <= (TIME_LIMIT - 1) * RANDOM_LIMIT;
  }

  /** Comparing ULIDs is comparing timestamps, then random parts. */
  lemma CompareIsTimeThenRandom(a: Ulid, b: Ulid)
    ensures Compare(a, b) == Less <==>
      Timestamp(a) < Timestamp(b) || (Timestamp(a) == Timestamp(b) && RandomPart(a) < RandomPart(b))
    ensures Compare(a, b) == Equal <==>
      Timestamp(a) == Timestamp(b) && RandomPart(a) == RandomPart(b)
  {
    var ta, ra, tb, rb := Timestamp(a), RandomPart(a), Timestamp(b), RandomPart(b);
    assert a == ta * RANDOM_LIMIT + ra;
    assert b == tb * RANDOM_LIMIT + rb;
    if ta < tb {
      assert a < (ta + 1) * RANDOM_LIMIT <= tb * RANDOM_LIMIT <= b;
    } else if tb < ta {
      assert b < (tb + 1) * RANDOM_LIMIT <= ta * RANDOM_LIMIT <= a;
    }
  }
}
