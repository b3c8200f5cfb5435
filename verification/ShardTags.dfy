/** Shard prefixes with tag. The lowest set bit b of a tag marks the prefix length: the tag stands
    for the dyadic interval [tag - b, tag + b) of account prefixes, and its two children are the
    halves of that interval. */
module ShardTags {
  import opened Words

  /** The lowest set bit. */
  function LowBit(n: nat): (b: nat)
    requires n > 0
    ensures 1 <= b <= n
  {
    if n % 2 == 1 then 1 else 2 * LowBit(n / 2)
  }

  predicate Covers(tag: u64, prefix: int) {
    tag > 0 && tag - LowBit(tag) <= prefix < tag + LowBit(tag)
  }

  predicate IsCovered(keys: set<u64>, prefix: int) {
    exists t | t in keys :: Covers(t, prefix)
  }

  predicate Splittable(tag: u64) { tag > 0 && LowBit(tag) >= 2 }

  function Left(tag: u64): u64
    requires Splittable(tag)
  {
    tag - LowBit(tag) / 2
  }

  function Right(tag: u64): u64
    requires Splittable(tag)
  {
    RightFits(tag);
    tag + LowBit(tag) / 2
  }

  predicate IsHalf(c: u64, p: u64) {
    Splittable(p) && (c == Left(p) || c == Right(p))
  }

  function Sibling(c: u64, p: u64): u64
    requires IsHalf(c, p)
  {
    if c == Left(p) then Right(p) else Left(p)
  }

  /** The halves of a shard, if it may split: the depth limit belongs to the block library and is
      a parameter here. */
  function Split(tag: u64, limit: nat): Option<(u64, u64)> {
    if Splittable(tag) && LowBit(tag) > limit then Some((Left(tag), Right(tag))) else None
  }

  // ----- dyadic intervals -----

  lemma {:induction false} LowBitOfHalves(n: nat)
    requires n > 0 && LowBit(n) >= 2
    ensures LowBit(n) % 2 == 0
    ensures LowBit(n - LowBit(n) / 2) == LowBit(n) / 2
    ensures LowBit(n + LowBit(n) / 2) == LowBit(n) / 2
  {
    var m := n / 2;
    if LowBit(m) >= 2 {
      LowBitOfHalves(m);
      assert n - LowBit(n) / 2 == 2 * (m - LowBit(m) / 2);
      assert n + LowBit(n) / 2 == 2 * (m + LowBit(m) / 2);
    }
  }

  lemma {:induction false} UpperEnd(n: nat, k: nat)
    requires 0 < n < Pow2(k)
    ensures n + LowBit(n) <= Pow2(k)
  {
    if k > 0 && n % 2 == 0 { UpperEnd(n / 2, k - 1); }
  }

  lemma RightFits(tag: u64)
    requires tag > 0
    ensures tag + LowBit(tag) <= TWO_64
  {
    Pow2Of64();
    UpperEnd(tag, 64);
  }

  /** The halves are distinct shards one level down that cut the interval in two. */
  lemma HalvesPartition(tag: u64)
    requires Splittable(tag)
    ensures Left(tag) < tag < Right(tag)
    ensures Left(tag) > 0 && LowBit(Left(tag)) == LowBit(Right(tag)) == LowBit(tag) / 2
    ensures forall p :: Covers(tag, p) <==> Covers(Left(tag), p) || Covers(Right(tag), p)
    ensures forall p :: !(Covers(Left(tag), p) && Covers(Right(tag), p))
  {
    LowBitOfHalves(tag);
  }

  lemma CoversItself(tag: u64)
    requires tag > 0
    ensures Covers(tag, tag)
  {
  }

  lemma HalfWithin(c: u64, p: u64)
    requires IsHalf(c, p)
    ensures c != p && c > 0
    ensures forall x | Covers(c, x) :: Covers(p, x)
  {
    HalvesPartition(p);
  }
}
