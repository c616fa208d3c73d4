/** The wrapper around fastcoll (collide.py, `collide`). fastcoll itself,
    a randomized external program, is a function value returning its two
    output blocks with the prefix already stripped; the wrapper's checks
    and its ordering of the pair are modelled exactly. */
module Collide {
  import opened Wrappers
  import opened Bytes
  import opened Digests

  /** fastcoll appends two MD5 blocks. */
  const COLLISION_LEN: nat := 128
  /** The last offset at which the two blocks differ. */
  const COLLISION_LAST_DIFF: nat := 123

  /** The assertion of `collide` that failed. */
  datatype CollideError =
    | IdenticalBlocks    // coll_a == coll_b
    | DigestsDiffer      // MD5(prefix + coll_a) != MD5(prefix + coll_b)
    | WrongLength        // a block is not COLLISION_LEN bytes
    | SameLastDiffByte   // the blocks agree at COLLISION_LAST_DIFF

  /** The pair `collide` returns: `low` has the smaller byte at
      COLLISION_LAST_DIFF (the generator's coll_img), `high` the larger
      (coll_nop). */
  datatype CollisionPair = CollisionPair(low: seq<byte>, high: seq<byte>)

  /** A pair the generator may use after `prefix`. */
  predicate Colliding(md5: Hash, prefix: seq<byte>, pair: CollisionPair) {
    && |pair.low| == COLLISION_LEN && |pair.high| == COLLISION_LEN
    && pair.low[COLLISION_LAST_DIFF] < pair.high[COLLISION_LAST_DIFF]
    && md5(prefix + pair.low) == md5(prefix + pair.high)
  }

  /** `collide(prefix)` given fastcoll's two blocks `a` and `b`. The prefix
      must be aligned to an MD5 block. */
  function Collide(md5: Hash, prefix: seq<byte>, a: seq<byte>, b: seq<byte>): (r: Result<CollisionPair, CollideError>)
    requires |prefix| % 64 == 0
    ensures r.Success? <==>
              && a != b && md5(prefix + a) == md5(prefix + b)
              && |a| == COLLISION_LEN && |b| == COLLISION_LEN
              && a[COLLISION_LAST_DIFF] != b[COLLISION_LAST_DIFF]
    ensures r.Success? ==> Colliding(md5, prefix, r.value) && r.value.low != r.value.high
    ensures r.Success? ==> r.value == CollisionPair(a, b) || r.value == CollisionPair(b, a)
  {
    if a == b then Failure(IdenticalBlocks)
    else if md5(prefix + a) != md5(prefix + b) then Failure(DigestsDiffer)
    else if |a| != COLLISION_LEN || |b| != COLLISION_LEN then Failure(WrongLength)
    else if a[COLLISION_LAST_DIFF] == b[COLLISION_LAST_DIFF] then Failure(SameLastDiffByte)
    else if a[COLLISION_LAST_DIFF] < b[COLLISION_LAST_DIFF] then Success(CollisionPair(a, b))
    else Success(CollisionPair(b, a))
  }
}
