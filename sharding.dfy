/**
 * The shard partition of the flat parameter vector used by every collective of
 * the communicator (Communicator::foreach and DefaultCommunicator::init).
 *
 * A vector of `total` elements is split among `n` replicas into contiguous
 * shards of `ShardSize(total, n) = ceil(total / n)` elements, each clipped to
 * what remains; trailing shards may be empty.
 */
module Sharding {

  /** Integer ceiling of a / b (the source computes ceil(total / (float)n)). */
  function CeilDiv(a: nat, b: nat): (q: nat)
    requires b > 0
    ensures q * b >= a
    ensures q > 0 ==> (q - 1) * b < a
  {
    var q := (a + b - 1) / b;
    assert q * b + (a + b - 1) % b == a + b - 1;
    q
  }

  /** The shard size every replica is given before clipping. */
  function ShardSize(total: nat, n: nat): nat
    requires n > 0
  {
    CeilDiv(total, n)
  }

  /** Where shard i starts: i shard sizes in, but never past the end. */
  function ShardPos(total: nat, n: nat, i: nat): nat
    requires n > 0
  {
    var s := ShardSize(total, n);
    if i * s < total then i * s else total
  }

  /** How many elements shard i holds: a full shard, or what remains. */
  function ShardLen(total: nat, n: nat, i: nat): nat
    requires n > 0
  {
    var s := ShardSize(total, n);
    var rest := total - ShardPos(total, n, i);
    if s < rest then s else rest
  }

  /** Element k lies in shard i. */
  predicate InShard(total: nat, n: nat, i: nat, k: nat)
    requires n > 0
  {
    ShardPos(total, n, i) <= k < ShardPos(total, n, i) + ShardLen(total, n, i)
  }

  /** The sizes of shards 0 .. i-1 added up, as foreach accumulates `pos`. */
  function SumLens(total: nat, n: nat, i: nat): nat
    requires n > 0
  {
    if i == 0 then 0 else SumLens(total, n, i - 1) + ShardLen(total, n, i - 1)
  }

  /** Each shard ends where the next one starts. */
  lemma ShardContiguous(total: nat, n: nat, i: nat)
    requires n > 0
    ensures ShardPos(total, n, i) + ShardLen(total, n, i) == ShardPos(total, n, i + 1)
  {
    var s := ShardSize(total, n);
    assert (i + 1) * s == i * s + s;
  }

  /** No shard is larger than ceil(total / n), and none ends past total. */
  lemma ShardBounds(total: nat, n: nat, i: nat)
    requires n > 0
    ensures ShardLen(total, n, i) <= ShardSize(total, n)
    ensures ShardPos(total, n, i) + ShardLen(total, n, i) <= total
  {
  }

  /** The n shards reach exactly to the end of the vector. */
  lemma ShardsReachTotal(total: nat, n: nat)
    requires n > 0
    ensures ShardPos(total, n, n) == total
  {
    var s := ShardSize(total, n);
    assert s * n >= total;
  }

  /** Every shard starts at the sum of the sizes of the shards before it. */
  lemma {:induction false} ShardPosIsPrefixSum(total: nat, n: nat, i: nat)
    requires n > 0
    ensures ShardPos(total, n, i) == SumLens(total, n, i)
  {
    if i > 0 {
      ShardPosIsPrefixSum(total, n, i - 1);
      ShardContiguous(total, n, i - 1);
    }
  }

  /** A larger factor gives a product at least as large. */
  lemma {:induction false} MulLe(a: nat, b: nat, s: nat)
    requires a <= b
    ensures a * s <= b * s
    decreases b - a
  {
    if a < b {
      MulLe(a, b - 1, s);
      assert b * s == (b - 1) * s + s;
    }
  }

  /** Multiplying by a positive factor keeps the order of the other factor. */
  lemma MulMonotone(a: nat, b: nat, s: nat)
    requires s > 0
    ensures a <= b <==> a * s <= b * s
  {
    if a <= b {
      MulLe(a, b, s);
    } else {
      MulLe(b + 1, a, s);
      assert (b + 1) * s == b * s + s;
    }
  }

  /** Integer division has one quotient: i * s <= k < (i + 1) * s pins i. */
  lemma DivBetween(k: nat, s: nat, i: nat)
    requires s > 0
    ensures (i * s <= k < i * s + s) <==> i == k / s
  {
    var q := k / s;
    assert q * s <= k < q * s + s;
    assert (i + 1) * s == i * s + s;
    assert (q + 1) * s == q * s + s;
    MulMonotone(i + 1, q, s);
    MulMonotone(q + 1, i, s);
  }

  /** The replica whose shard holds element k. */
  function OwnerOf(total: nat, n: nat, k: nat): (i: nat)
    requires n > 0 && k < total
    ensures i < n
    ensures InShard(total, n, i, k)
  {
    var s := ShardSize(total, n);
    var i := k / s;
    DivBetween(k, s, i);
    MulMonotone(n, i, s);
    assert ShardPos(total, n, i) == i * s;
    i
  }

  /**
   * Shards never overlap: an element of [0, total) lies in shard i exactly
   * when i is its owner. With OwnerOf this makes the shards a partition.
   */
  lemma ShardOwnerUnique(total: nat, n: nat, i: nat, k: nat)
    requires n > 0 && k < total
    ensures InShard(total, n, i, k) <==> i == OwnerOf(total, n, k)
  {
    var s := ShardSize(total, n);
    DivBetween(k, s, i);
    if i * s >= total {
      assert !InShard(total, n, i, k);
      assert i != k / s;
    }
  }

  /** Two shards with an element in common are the same shard. */
  lemma ShardsDisjoint(total: nat, n: nat, i: nat, j: nat, k: nat)
    requires n > 0 && k < total
    requires InShard(total, n, i, k) && InShard(total, n, j, k)
    ensures i == j
  {
    ShardOwnerUnique(total, n, i, k);
    ShardOwnerUnique(total, n, j, k);
  }

  /**
   * foreach: walks the replicas in order, keeping the running offset `pos` and
   * the remaining length, and hands shard idx's start offset to the worker.
   * The returned sequence records the offset each worker invocation receives:
   * one invocation per replica index, in order.
   */
  method Foreach(total: nat, n: nat) returns (calls: seq<nat>)
    requires n > 0
    ensures |calls| == n
    ensures forall i :: 0 <= i < n ==> calls[i] == ShardPos(total, n, i)
  {
    var totalSize := total;
    var shardSize := ShardSize(total, n);
    var pos := 0;
    calls := [];
    for idx := 0 to n
      invariant |calls| == idx
      invariant forall i :: 0 <= i < idx ==> calls[i] == ShardPos(total, n, i)
      invariant pos == ShardPos(total, n, idx)
      invariant totalSize == total - pos
    {
      var size := if shardSize < totalSize then shardSize else totalSize;
      calls := calls + [pos];
      ShardContiguous(total, n, idx);
      pos := pos + size;
      totalSize := totalSize - size;
    }
  }

  /**
   * Where the slices of the scatterReduce and allGather workers end as
   * written: a full shard size past the shard's start, whatever the shard's
   * clipped length.
   */
  function SliceEndAsWritten(total: nat, n: nat, i: nat): nat
    requires n > 0
  {
    ShardPos(total, n, i) + ShardSize(total, n)
  }

  /**
   * Five elements on two replicas: shard 1 is [3, 5), but its worker slices
   * [3, 6), one element past the end of the vector and past the two-element
   * scratch buffer init() made for that shard.
   */
  lemma UnclippedSliceOverruns()
    ensures ShardPos(5, 2, 1) == 3 && ShardLen(5, 2, 1) == 2
    ensures SliceEndAsWritten(5, 2, 1) == 6 > 5
  {
    assert CeilDiv(5, 2) == 3;
  }
}
