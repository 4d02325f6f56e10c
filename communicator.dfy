/**
 * DefaultCommunicator: keeps the per-device replicas of the parameter vector
 * in step by copying and summing shard ranges between them.
 *
 * Replica r's parameter values are vals[r] and its gradients grads[r]; every
 * such buffer has `total` elements. The shard workers, which the source runs
 * in parallel threads, run here one after another in replica order; each
 * writes only inside its own shard range, so the order does not matter.
 */
module Communicator {
  import opened Sharding

  /** One buffer per replica. */
  type Buffers = seq<seq<int>>

  /** n buffers of total elements each. */
  predicate WellFormed(b: Buffers, n: nat, total: nat)
  {
    |b| == n && forall r :: 0 <= r < n ==> |b[r]| == total
  }

  /** The scratch buffers init() allocates: one per shard, of that shard's length. */
  predicate ScratchShaped(tmp: Buffers, n: nat, total: nat)
    requires n > 0
  {
    |tmp| == n && forall i :: 0 <= i < n ==> |tmp[i]| == ShardLen(total, n, i)
  }

  /** Every caller-supplied shard buffer p[i], placed at shard i's start, stays inside the vector. */
  predicate InBounds(p: Buffers, n: nat, total: nat)
    requires n > 0
  {
    |p| == n && forall i :: 0 <= i < n ==> ShardPos(total, n, i) + |p[i]| <= total
  }

  /**
   * Every caller-supplied shard buffer p[i] fits inside shard i, so the
   * workers that write p[i] back into the replicas write disjoint ranges.
   */
  predicate FitsShards(p: Buffers, n: nat, total: nat)
    requires n > 0
  {
    |p| == n && forall i :: 0 <= i < n ==> |p[i]| <= ShardLen(total, n, i)
  }

  /** subtensor(pos, len): the elements [pos, pos + len) of buf. */
  function Slice(buf: seq<int>, pos: nat, len: nat): (r: seq<int>)
    requires pos + len <= |buf|
    ensures |r| == len
    ensures forall j :: 0 <= j < len ==> r[j] == buf[pos + j]
  {
    buf[pos..pos + len]
  }

  /** subtensor(pos, |src|)->copyFrom(src): buf with [pos, pos + |src|) replaced by src. */
  function Overwrite(buf: seq<int>, pos: nat, src: seq<int>): (r: seq<int>)
    requires pos + |src| <= |buf|
    ensures |r| == |buf|
    ensures forall k :: 0 <= k < |buf| ==> r[k] == if pos <= k < pos + |src| then src[k - pos] else buf[k]
  {
    buf[..pos] + src + buf[pos + |src|..]
  }

  /** Element(_1 = _1 + _2, subtensor(pos, |src|), src): src added into [pos, pos + |src|) of buf. */
  function AddInto(buf: seq<int>, pos: nat, src: seq<int>): (r: seq<int>)
    requires pos + |src| <= |buf|
    ensures |r| == |buf|
    ensures forall k :: 0 <= k < |buf| ==> r[k] == if pos <= k < pos + |src| then buf[k] + src[k - pos] else buf[k]
  {
    seq(|buf|, k requires 0 <= k < |buf| => if pos <= k < pos + |src| then buf[k] + src[k - pos] else buf[k])
  }

  /** The sum over replicas 0 .. m-1 of element k. */
  function ColumnSum(b: Buffers, k: nat, m: nat): int
    requires m <= |b| && forall g :: 0 <= g < m ==> k < |b[g]|
  {
    if m == 0 then 0 else ColumnSum(b, k, m - 1) + b[m - 1][k]
  }

  /** The sum over replicas 0 .. m-1 other than r of element k: what scatterReduce adds into replica r. */
  function OthersSum(b: Buffers, k: nat, r: nat, m: nat): int
    requires m <= |b| && forall g :: 0 <= g < m ==> k < |b[g]|
  {
    if m == 0 then 0 else OthersSum(b, k, r, m - 1) + (if m - 1 != r then b[m - 1][k] else 0)
  }

  /** A replica's own element plus the others' is the sum over all replicas. */
  lemma {:induction false} OwnPlusOthers(b: Buffers, k: nat, r: nat, m: nat)
    requires r < m <= |b| && forall g :: 0 <= g < m ==> k < |b[g]|
    ensures b[r][k] + OthersSum(b, k, r, m) == ColumnSum(b, k, m)
  {
    if m - 1 == r {
      OthersBelowOwn(b, k, r, m - 1);
    } else {
      OwnPlusOthers(b, k, r, m - 1);
    }
  }

  /** Before replica r is reached, the others' sum is the plain column sum. */
  lemma {:induction false} OthersBelowOwn(b: Buffers, k: nat, r: nat, m: nat)
    requires m <= r && m <= |b| && forall g :: 0 <= g < m ==> k < |b[g]|
    ensures OthersSum(b, k, r, m) == ColumnSum(b, k, m)
  {
    if m > 0 {
      OthersBelowOwn(b, k, r, m - 1);
    }
  }

  /** The others' sum reads only element k of the first m replicas. */
  lemma {:induction false} OthersSumFrame(b: Buffers, c: Buffers, k: nat, r: nat, m: nat)
    requires m <= |b| && m <= |c|
    requires forall g :: 0 <= g < m ==> k < |b[g]| && k < |c[g]| && b[g][k] == c[g][k]
    ensures OthersSum(b, k, r, m) == OthersSum(c, k, r, m)
  {
    if m > 0 {
      OthersSumFrame(b, c, k, r, m - 1);
    }
  }

  /**
   * What scatterReduce leaves in the gradients: on its own shard, each replica
   * holds its old gradient plus every other replica's; elsewhere nothing changes.
   */
  function ScatterReduced(g: Buffers, n: nat, total: nat): (r: Buffers)
    requires n > 0 && WellFormed(g, n, total)
    ensures WellFormed(r, n, total)
  {
    seq(n, i requires 0 <= i < n =>
      seq(total, k requires 0 <= k < total =>
        if OwnerOf(total, n, k) == i then g[i][k] + OthersSum(g, k, i, n) else g[i][k]))
  }

  /** What allGather leaves in the gathered buffers: every replica holds, at k, the owner of k's element. */
  function Gathered(b: Buffers, n: nat, total: nat): (r: Buffers)
    requires n > 0 && WellFormed(b, n, total)
    ensures WellFormed(r, n, total)
  {
    seq(n, i requires 0 <= i < n =>
      seq(total, k requires 0 <= k < total => b[OwnerOf(total, n, k)][k]))
  }

  /** What pushParams leaves in the shard buffers: p[i] refilled from replica i at shard i. */
  function Pushed(v: Buffers, p: Buffers, n: nat, total: nat): (r: Buffers)
    requires n > 0 && WellFormed(v, n, total) && InBounds(p, n, total)
    ensures |r| == n
  {
    seq(n, i requires 0 <= i < n => Slice(v[i], ShardPos(total, n, i), |p[i]|))
  }

  /** What swapParams leaves in the shard buffers: p[i] refilled from the last replica at shard i. */
  function LastShards(v: Buffers, p: Buffers, n: nat, total: nat): (r: Buffers)
    requires n > 0 && WellFormed(v, n, total) && InBounds(p, n, total)
    ensures |r| == n
  {
    seq(n, i requires 0 <= i < n => Slice(v[n - 1], ShardPos(total, n, i), |p[i]|))
  }

  /** Element k of a replica once the shard buffers p are written back: p's element if k falls in one. */
  function PulledAt(x: int, p: Buffers, n: nat, total: nat, k: nat): int
    requires n > 0 && k < total && FitsShards(p, n, total)
  {
    var i := OwnerOf(total, n, k);
    var off := k - ShardPos(total, n, i);
    if off < |p[i]| then p[i][off] else x
  }

  /** What pullParams leaves in the values: every replica holds p[i] over the start of shard i. */
  function Pulled(v: Buffers, p: Buffers, n: nat, total: nat): (r: Buffers)
    requires n > 0 && WellFormed(v, n, total) && FitsShards(p, n, total)
    ensures WellFormed(r, n, total)
  {
    seq(n, r requires 0 <= r < n =>
      seq(total, k requires 0 <= k < total => PulledAt(v[r][k], p, n, total, k)))
  }

  /** After scatterReduce, each shard's owner holds the sum over all replicas of that shard. */
  lemma ScatterReducedSums(g: Buffers, n: nat, total: nat, k: nat)
    requires n > 0 && WellFormed(g, n, total) && k < total
    ensures ScatterReduced(g, n, total)[OwnerOf(total, n, k)][k] == ColumnSum(g, k, n)
  {
    OwnPlusOthers(g, k, OwnerOf(total, n, k), n);
  }

  /** allReduceGrads (scatterReduce, then allGather(false)) leaves every replica with the elementwise sum. */
  lemma AllReduceSums(g: Buffers, n: nat, total: nat)
    requires n > 0 && WellFormed(g, n, total)
    ensures forall r, k :: 0 <= r < n && 0 <= k < total ==>
      Gathered(ScatterReduced(g, n, total), n, total)[r][k] == ColumnSum(g, k, n)
  {
    forall r, k | 0 <= r < n && 0 <= k < total
      ensures Gathered(ScatterReduced(g, n, total), n, total)[r][k] == ColumnSum(g, k, n)
    {
      ScatterReducedSums(g, n, total, k);
    }
  }

  /** allGather is idempotent, leaves the owner's element in place and makes all replicas equal. */
  lemma GatherIdempotent(b: Buffers, n: nat, total: nat)
    requires n > 0 && WellFormed(b, n, total)
    ensures Gathered(Gathered(b, n, total), n, total) == Gathered(b, n, total)
    ensures forall k :: 0 <= k < total ==> Gathered(b, n, total)[OwnerOf(total, n, k)][k] == b[OwnerOf(total, n, k)][k]
    ensures forall r :: 0 <= r < n ==> Gathered(b, n, total)[r] == Gathered(b, n, total)[0]
  {
    var once := Gathered(b, n, total);
    var twice := Gathered(once, n, total);
    forall r | 0 <= r < n
      ensures twice[r] == once[r]
      ensures once[r] == once[0]
    {
      forall k | 0 <= k < total
        ensures twice[r][k] == once[r][k] && once[r][k] == once[0][k]
      {
        var o := OwnerOf(total, n, k);
        assert once[r][k] == b[o][k] && once[0][k] == b[o][k];
        assert twice[r][k] == once[o][k];
        assert once[o][k] == b[o][k];
      }
      assert |twice[r]| == |once[r]| == |once[0]| == total;
    }
  }

  /** pushParams right after pullParams gives back the shard buffers that were pulled. */
  lemma PullThenPush(v: Buffers, p: Buffers, n: nat, total: nat)
    requires n > 0 && WellFormed(v, n, total) && FitsShards(p, n, total)
    ensures InBounds(p, n, total)
    ensures Pushed(Pulled(v, p, n, total), p, n, total) == p
  {
    forall i | 0 <= i < n
      ensures ShardPos(total, n, i) + |p[i]| <= total
    {
      ShardBounds(total, n, i);
    }
    var w := Pulled(v, p, n, total);
    forall i | 0 <= i < n
      ensures Slice(w[i], ShardPos(total, n, i), |p[i]|) == p[i]
    {
      var pos := ShardPos(total, n, i);
      forall j | 0 <= j < |p[i]|
        ensures w[i][pos + j] == p[i][j]
      {
        ShardOwnerUnique(total, n, i, pos + j);
      }
    }
  }

  /**
   * When the replicas agree and every shard buffer is exactly its shard,
   * pullParams of what pushParams produced restores the values.
   */
  lemma PushThenPull(v: Buffers, p: Buffers, n: nat, total: nat)
    requires n > 0 && WellFormed(v, n, total)
    requires forall r :: 0 <= r < n ==> v[r] == v[0]
    requires |p| == n && forall i :: 0 <= i < n ==> |p[i]| == ShardLen(total, n, i)
    ensures InBounds(p, n, total) && FitsShards(Pushed(v, p, n, total), n, total)
    ensures Pulled(v, Pushed(v, p, n, total), n, total) == v
  {
    forall i | 0 <= i < n
      ensures ShardPos(total, n, i) + |p[i]| <= total
    {
      ShardBounds(total, n, i);
    }
    var q := Pushed(v, p, n, total);
    var w := Pulled(v, q, n, total);
    forall r | 0 <= r < n
      ensures w[r] == v[r]
    {
      forall k | 0 <= k < total
        ensures w[r][k] == v[r][k]
      {
        var i := OwnerOf(total, n, k);
        assert q[i][k - ShardPos(total, n, i)] == v[i][k];
      }
    }
  }

  /** swapParams twice gives the shard buffers back. */
  lemma SwapTwiceRestoresShards(v: Buffers, p: Buffers, n: nat, total: nat)
    requires n > 0 && WellFormed(v, n, total) && FitsShards(p, n, total)
    ensures InBounds(p, n, total)
    ensures LastShards(Pulled(v, p, n, total), LastShards(v, p, n, total), n, total) == p
  {
    PullThenPush(v, p, n, total);
    var w := Pulled(v, p, n, total);
    forall i | 0 <= i < n
      ensures Slice(w[n - 1], ShardPos(total, n, i), |p[i]|) == p[i]
    {
      var pos := ShardPos(total, n, i);
      forall j | 0 <= j < |p[i]|
        ensures w[n - 1][pos + j] == p[i][j]
      {
        ShardOwnerUnique(total, n, i, pos + j);
      }
    }
  }

  /**
   * The scatter worker for shard idx: for every other replica, copy its
   * gradient shard into the scratch buffer and add that into replica idx's
   * gradient shard. It reads and writes the clipped shard length, where the
   * source slices with the unclipped shard size.
   */
  method ScatterShard(grads: Buffers, tmp: Buffers, n: nat, total: nat, idx: nat, pos: nat)
    returns (grads': Buffers, tmp': Buffers)
    requires n > 0 && WellFormed(grads, n, total) && ScratchShaped(tmp, n, total)
    requires idx < n && pos == ShardPos(total, n, idx)
    ensures WellFormed(grads', n, total) && ScratchShaped(tmp', n, total)
    ensures forall r :: 0 <= r < n && r != idx ==> grads'[r] == grads[r]
    ensures forall k :: 0 <= k < total ==>
      grads'[idx][k] == if InShard(total, n, idx, k) then grads[idx][k] + OthersSum(grads, k, idx, n) else grads[idx][k]
  {
    var len := ShardLen(total, n, idx);
    ShardBounds(total, n, idx);
    grads', tmp' := grads, tmp;
    for g := 0 to n
      invariant WellFormed(grads', n, total) && ScratchShaped(tmp', n, total)
      invariant forall r :: 0 <= r < n && r != idx ==> grads'[r] == grads[r]
      invariant forall k :: 0 <= k < total ==>
        grads'[idx][k] == if pos <= k < pos + len then grads[idx][k] + OthersSum(grads, k, idx, g) else grads[idx][k]
    {
      if g != idx {
        tmp' := tmp'[idx := Slice(grads'[g], pos, len)];
        grads' := grads'[idx := AddInto(grads'[idx], pos, tmp'[idx])];
      }
    }
  }

  /** The gather worker for shard idx: copy replica idx's shard over that shard of every other replica. */
  method GatherShard(b: Buffers, n: nat, total: nat, idx: nat, pos: nat) returns (b': Buffers)
    requires n > 0 && WellFormed(b, n, total) && idx < n && pos == ShardPos(total, n, idx)
    ensures WellFormed(b', n, total)
    ensures forall r, k :: 0 <= r < n && 0 <= k < total ==>
      b'[r][k] == if InShard(total, n, idx, k) then b[idx][k] else b[r][k]
  {
    var len := ShardLen(total, n, idx);
    ShardBounds(total, n, idx);
    b' := CopyShardToOthers(b, n, total, idx, pos, len);
    forall r, k | 0 <= r < n && 0 <= k < total
      ensures b'[r][k] == if InShard(total, n, idx, k) then b[idx][k] else b[r][k]
    {
      assert InShard(total, n, idx, k) <==> pos <= k < pos + len;
      if pos <= k < pos + len {
        assert b'[r][k] == b[idx][k];
      } else {
        assert b'[r][k] == b[r][k];
      }
    }
  }

  /** The loop of the gather worker, over the range [pos, pos + len). */
  method CopyShardToOthers(b: Buffers, n: nat, total: nat, idx: nat, pos: nat, len: nat) returns (b': Buffers)
    requires WellFormed(b, n, total) && idx < n && pos + len <= total
    ensures WellFormed(b', n, total)
    ensures forall r, k :: 0 <= r < n && pos <= k < pos + len ==> b'[r][k] == b[idx][k]
    ensures forall r, k :: 0 <= r < n && 0 <= k < total && !(pos <= k < pos + len) ==> b'[r][k] == b[r][k]
  {
    b' := b;
    for g := 0 to n
      invariant WellFormed(b', n, total) && b'[idx] == b[idx]
      invariant forall r :: g <= r < n ==> b'[r] == b[r]
      invariant forall r, k :: 0 <= r < g && pos <= k < pos + len ==> b'[r][k] == b[idx][k]
      invariant forall r, k :: 0 <= r < g && 0 <= k < total && !(pos <= k < pos + len) ==> b'[r][k] == b[r][k]
    {
      if g != idx {
        var row := Overwrite(b'[g], pos, Slice(b'[idx], pos, len));
        assert forall k :: pos <= k < pos + len ==> row[k] == b[idx][k];
        assert forall k :: 0 <= k < total && !(pos <= k < pos + len) ==> row[k] == b[g][k];
        b' := b'[g := row];
      }
    }
  }

  /** The pull worker for shard idx: write src over [pos, pos + |src|) of every replica. */
  method PullShard(v: Buffers, n: nat, total: nat, pos: nat, src: seq<int>) returns (v': Buffers)
    requires WellFormed(v, n, total) && pos + |src| <= total
    ensures WellFormed(v', n, total)
    ensures forall r, k :: 0 <= r < n && 0 <= k < total ==>
      v'[r][k] == if pos <= k < pos + |src| then src[k - pos] else v[r][k]
  {
    v' := v;
    for g := 0 to n
      invariant WellFormed(v', n, total)
      invariant forall r, k :: 0 <= r < n && 0 <= k < total ==>
        v'[r][k] == if r < g && pos <= k < pos + |src| then src[k - pos] else v[r][k]
    {
      v' := v'[g := Overwrite(v'[g], pos, src)];
    }
  }

  /**
   * The swap worker for shard idx: write src over [pos, pos + |src|) of every
   * replica but the last, keep the last replica's old range as the new shard
   * buffer, then copy the first replica's range over the last one's.
   */
  method SwapShard(v: Buffers, n: nat, total: nat, pos: nat, src: seq<int>) returns (v': Buffers, saved: seq<int>)
    requires n >= 2 && WellFormed(v, n, total) && pos + |src| <= total
    ensures WellFormed(v', n, total)
    ensures forall r, k :: 0 <= r < n && 0 <= k < total ==>
      v'[r][k] == if pos <= k < pos + |src| then src[k - pos] else v[r][k]
    ensures saved == Slice(v[n - 1], pos, |src|)
  {
    var len := |src|;
    v' := v;
    for i := 0 to n - 1
      invariant WellFormed(v', n, total)
      invariant forall r, k :: 0 <= r < n && 0 <= k < total ==>
        v'[r][k] == if r < i && pos <= k < pos + len then src[k - pos] else v[r][k]
    {
      v' := v'[i := Overwrite(v'[i], pos, src)];
    }
    saved := Slice(v'[n - 1], pos, len);
    v' := v'[n - 1 := Overwrite(v'[n - 1], pos, Slice(v'[0], pos, len))];
  }

  /** scatterReduce on the gradient buffers: foreach runs the scatter worker of every shard. */
  method ScatterAll(grads: Buffers, tmp: Buffers, n: nat, total: nat) returns (grads': Buffers, tmp': Buffers)
    requires n > 0 && WellFormed(grads, n, total) && ScratchShaped(tmp, n, total)
    ensures ScratchShaped(tmp', n, total)
    ensures grads' == ScatterReduced(grads, n, total)
  {
    var offsets := Foreach(total, n);
    grads', tmp' := grads, tmp;
    for idx := 0 to n
      invariant WellFormed(grads', n, total) && ScratchShaped(tmp', n, total)
      invariant forall r, k :: 0 <= r < n && 0 <= k < total ==>
        grads'[r][k] == if r < idx && OwnerOf(total, n, k) == r
                        then grads[r][k] + OthersSum(grads, k, r, n)
                        else grads[r][k]
    {
      ghost var before := grads';
      grads', tmp' := ScatterShard(grads', tmp', n, total, idx, offsets[idx]);
      forall r, k | 0 <= r < n && 0 <= k < total
        ensures grads'[r][k] == if r < idx + 1 && OwnerOf(total, n, k) == r
                                then grads[r][k] + OthersSum(grads, k, r, n)
                                else grads[r][k]
      {
        ShardOwnerUnique(total, n, idx, k);
        if r == idx && OwnerOf(total, n, k) == idx {
          OthersSumFrame(before, grads, k, idx, n);
        }
      }
    }
    ghost var want := ScatterReduced(grads, n, total);
    forall r | 0 <= r < n
      ensures grads'[r] == want[r]
    {
    }
  }

  /** allGather on one kind of buffer: foreach runs the gather worker of every shard. */
  method GatherAll(b: Buffers, n: nat, total: nat) returns (b': Buffers)
    requires n > 0 && WellFormed(b, n, total)
    ensures b' == Gathered(b, n, total)
  {
    var offsets := Foreach(total, n);
    b' := b;
    for idx := 0 to n
      invariant WellFormed(b', n, total)
      invariant forall r, k :: 0 <= r < n && 0 <= k < total ==>
        b'[r][k] == if OwnerOf(total, n, k) < idx then b[OwnerOf(total, n, k)][k] else b[r][k]
    {
      b' := GatherShard(b', n, total, idx, offsets[idx]);
      forall r, k | 0 <= r < n && 0 <= k < total
        ensures b'[r][k] == if OwnerOf(total, n, k) < idx + 1 then b[OwnerOf(total, n, k)][k] else b[r][k]
      {
        ShardOwnerUnique(total, n, idx, k);
      }
    }
    ghost var want := Gathered(b, n, total);
    forall r | 0 <= r < n
      ensures b'[r] == want[r]
    {
    }
  }

  /** pullParams on the value buffers: foreach runs the pull worker of every shard. */
  method PullAll(v: Buffers, p: Buffers, n: nat, total: nat) returns (v': Buffers)
    requires n > 0 && WellFormed(v, n, total) && FitsShards(p, n, total)
    ensures v' == Pulled(v, p, n, total)
  {
    var offsets := Foreach(total, n);
    v' := v;
    for idx := 0 to n
      invariant WellFormed(v', n, total)
      invariant forall r, k :: 0 <= r < n && 0 <= k < total ==>
        v'[r][k] == if OwnerOf(total, n, k) < idx then PulledAt(v[r][k], p, n, total, k) else v[r][k]
    {
      ShardBounds(total, n, idx);
      v' := PullShard(v', n, total, offsets[idx], p[idx]);
      forall r, k | 0 <= r < n && 0 <= k < total
        ensures v'[r][k] == if OwnerOf(total, n, k) < idx + 1 then PulledAt(v[r][k], p, n, total, k) else v[r][k]
      {
        ShardOwnerUnique(total, n, idx, k);
      }
    }
    ghost var want := Pulled(v, p, n, total);
    forall r | 0 <= r < n
      ensures v'[r] == want[r]
    {
    }
  }

  /** swapParams on the value buffers and shard buffers: foreach runs the swap worker of every shard. */
  method SwapAll(v: Buffers, p: Buffers, n: nat, total: nat) returns (v': Buffers, p': Buffers)
    requires n >= 2 && WellFormed(v, n, total) && FitsShards(p, n, total)
    ensures InBounds(p, n, total)
    ensures v' == Pulled(v, p, n, total)
    ensures p' == LastShards(v, p, n, total)
  {
    forall i | 0 <= i < n
      ensures ShardPos(total, n, i) + |p[i]| <= total
    {
      ShardBounds(total, n, i);
    }
    var offsets := Foreach(total, n);
    v', p' := v, p;
    for idx := 0 to n
      invariant WellFormed(v', n, total) && |p'| == n
      invariant forall i :: idx <= i < n ==> p'[i] == p[i]
      invariant forall i :: 0 <= i < idx ==> p'[i] == Slice(v[n - 1], ShardPos(total, n, i), |p[i]|)
      invariant forall r, k :: 0 <= r < n && 0 <= k < total ==>
        v'[r][k] == if OwnerOf(total, n, k) < idx then PulledAt(v[r][k], p, n, total, k) else v[r][k]
    {
      ghost var before := v';
      var pos := offsets[idx];
      var saved;
      v', saved := SwapShard(v', n, total, pos, p'[idx]);
      forall j | 0 <= j < |p[idx]|
        ensures saved[j] == v[n - 1][pos + j]
      {
        ShardOwnerUnique(total, n, idx, pos + j);
      }
      p' := p'[idx := saved];
      forall r, k | 0 <= r < n && 0 <= k < total
        ensures v'[r][k] == if OwnerOf(total, n, k) < idx + 1 then PulledAt(v[r][k], p, n, total, k) else v[r][k]
      {
        ShardOwnerUnique(total, n, idx, k);
      }
    }
    ghost var want := Pulled(v, p, n, total);
    forall r | 0 <= r < n
      ensures v'[r] == want[r]
    {
    }
  }

  class DefaultCommunicator {
    /** graphs_.size(): the number of replicas. */
    const n: nat
    /** The length of every replica's parameter vector, params()->vals()->size(). */
    const total: nat
    /** Each replica's parameter values. */
    var vals: Buffers
    /** Each replica's gradients. */
    var grads: Buffers
    /** tmpTensors_: one scratch buffer per shard, empty until init() allocates them. */
    var tmp: Buffers

    ghost predicate Valid()
      reads this
    {
      n > 0 && WellFormed(vals, n, total) && WellFormed(grads, n, total)
      && (tmp == [] || ScratchShaped(tmp, n, total))
    }

    /** The source aborts when an inter-process transport is supplied; here that is the caller's obligation. */
    constructor (vals0: Buffers, grads0: Buffers, size: nat, mpi: bool)
      requires !mpi
      requires |vals0| > 0 && WellFormed(vals0, |vals0|, size) && WellFormed(grads0, |vals0|, size)
      ensures Valid()
      ensures n == |vals0| && total == size && vals == vals0 && grads == grads0 && tmp == []
    {
      n, total := |vals0|, size;
      vals, grads, tmp := vals0, grads0, [];
    }

    /** init: allocate the scratch buffers, one per shard of that shard's clipped size, once. */
    method Init()
      requires Valid()
      modifies this`tmp
      ensures Valid() && ScratchShaped(tmp, n, total)
      ensures old(tmp) != [] ==> tmp == old(tmp)
    {
      if |tmp| == 0 {
        var totalSize := total;
        var shardSize := ShardSize(total, n);
        var pos := 0;
        var scratch: Buffers := [];
        for idx := 0 to n
          invariant |scratch| == idx
          invariant forall i :: 0 <= i < idx ==> |scratch[i]| == ShardLen(total, n, i)
          invariant pos == ShardPos(total, n, idx) && totalSize == total - pos
        {
          var size := if shardSize < totalSize then shardSize else totalSize;
          scratch := scratch + [seq(size, _ => 0)];
          ShardContiguous(total, n, idx);
          pos := pos + size;
          totalSize := totalSize - size;
        }
        tmp := scratch;
      }
    }

    /** scatterReduce: every replica's gradient shard becomes its old value plus every other replica's. */
    method ScatterReduce()
      requires Valid()
      modifies this`grads, this`tmp
      ensures Valid() && ScratchShaped(tmp, n, total)
      ensures vals == old(vals)
      ensures grads == ScatterReduced(old(grads), n, total)
    {
      Init();
      grads, tmp := ScatterAll(grads, tmp, n, total);
    }

    /** allGather: every replica's shard idx (of values or of gradients) becomes replica idx's. */
    method AllGather(gatherVals: bool)
      requires Valid()
      modifies this`vals, this`grads
      ensures Valid() && tmp == old(tmp)
      ensures gatherVals ==> vals == Gathered(old(vals), n, total) && grads == old(grads)
      ensures !gatherVals ==> grads == Gathered(old(grads), n, total) && vals == old(vals)
    {
      if gatherVals {
        vals := GatherAll(vals, n, total);
      } else {
        grads := GatherAll(grads, n, total);
      }
    }

    /** allReduceGrads: with more than one replica, scatterReduce then allGather(false). */
    method AllReduceGrads()
      requires Valid()
      modifies this`vals, this`grads, this`tmp
      ensures Valid() && vals == old(vals)
      ensures n <= 1 ==> grads == old(grads) && tmp == old(tmp)
      ensures forall r, k :: 0 <= r < n && 0 <= k < total ==> grads[r][k] == ColumnSum(old(grads), k, n)
    {
      if n > 1 {
        ScatterReduce();
        AllGather(false);
        AllReduceSums(old(grads), n, total);
      }
    }

    /** reduceGrads ignores its root and performs a full allReduceGrads. */
    method ReduceGrads(root: nat)
      requires Valid()
      modifies this`vals, this`grads, this`tmp
      ensures Valid() && vals == old(vals)
      ensures n <= 1 ==> grads == old(grads) && tmp == old(tmp)
      ensures forall r, k :: 0 <= r < n && 0 <= k < total ==> grads[r][k] == ColumnSum(old(grads), k, n)
    {
      AllReduceGrads();
    }

    /** pushParams: copy replica idx's values at shard idx into the caller's buffer params[idx]. */
    method PushParams(params: array<seq<int>>)
      requires Valid() && InBounds(params[..], n, total)
      modifies params
      ensures params[..] == Pushed(vals, old(params[..]), n, total)
    {
      var offsets := Foreach(total, n);
      for idx := 0 to n
        invariant forall i :: 0 <= i < idx ==> params[i] == Slice(vals[i], ShardPos(total, n, i), |old(params[i])|)
        invariant forall i :: idx <= i < n ==> params[i] == old(params[i])
      {
        params[idx] := Slice(vals[idx], offsets[idx], |params[idx]|);
      }
    }

    /** pullParams: write each params[idx] over the start of shard idx in every replica. */
    method PullParams(params: Buffers)
      requires Valid() && FitsShards(params, n, total)
      modifies this`vals
      ensures Valid() && grads == old(grads) && tmp == old(tmp)
      ensures vals == Pulled(old(vals), params, n, total)
    {
      vals := PullAll(vals, params, n, total);
    }

    /**
     * swapParams: aborts (ok == false, nothing changed) with fewer than two
     * replicas; otherwise every replica takes params[idx] over shard idx and
     * params[idx] takes the last replica's old values there.
     */
    method SwapParams(params: array<seq<int>>) returns (ok: bool)
      requires Valid() && FitsShards(params[..], n, total)
      modifies this`vals, params
      ensures Valid() && grads == old(grads) && tmp == old(tmp)
      ensures ok <==> n >= 2
      ensures !ok ==> vals == old(vals) && params[..] == old(params[..])
      ensures ok ==> InBounds(old(params[..]), n, total)
      ensures ok ==> vals == Pulled(old(vals), old(params[..]), n, total)
      ensures ok ==> params[..] == LastShards(old(vals), old(params[..]), n, total)
    {
      if n < 2 {
        return false;
      }
      var p';
      vals, p' := SwapAll(vals, params[..], n, total);
      for i := 0 to n
        modifies params
        invariant forall j :: 0 <= j < i ==> params[j] == p'[j]
        invariant forall j :: i <= j < n ==> params[j] == old(params[j])
      {
        params[i] := p'[i];
      }
      return true;
    }
  }
}
