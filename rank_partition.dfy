/** Strided split of a list across ranks (`partition_for_rank` in
    interleaved_dataset.py): rank `r` of `W` keeps the elements at
    positions `r, r + W, r + 2W, ...`. */
module RankPartition {
  import opened Common

  /** The loop of `partition_for_rank`, over `range(rank, len(items), world)`. */
  method PartitionForRank<T>(items: seq<T>, rank: nat, world: nat) returns (r: seq<T>)
    requires world > 0
    ensures forall k: nat :: k < |r| <==> rank + k * world < |items|
    ensures forall k: nat :: k < |r| ==> r[k] == items[rank + k * world]
  {
    r := [];
    var idx := rank;
    while idx < |items|
      invariant idx == rank + |r| * world
      invariant forall k: nat :: k < |r| ==> rank + k * world < |items| && r[k] == items[rank + k * world]
    {
      r := r + [items[idx]];
      idx := idx + world;
    }
    forall k: nat | rank + k * world < |items|
      ensures k < |r|
    {
      if k >= |r| {
        MulMonotone(|r|, k, world);
      }
    }
  }

  /** The positions kept by rank `r` are `r + k*W`; across ranks `0..W-1`
      every position `i` is kept by exactly one rank (`i % W`), at exactly
      one place in its output (`i / W`): the outputs partition the input. */
  lemma {:induction false} StridePositionUnique(i: nat, r: nat, k: nat, world: nat)
    requires world > 0 && r < world
    ensures r + k * world == i <==> (r == i % world && k == i / world)
  {
    if r + k * world == i {
      DivModUnique(i, world, k, r);
    }
  }

  /** With one rank (the only call site: `rank=0, world_num=1`) the
      partition is the identity. */
  method SingleRankIsIdentity<T>(items: seq<T>) returns (r: seq<T>)
    ensures r == items
  {
    r := PartitionForRank(items, 0, 1);
    assert |r| == |items| by {
      var n: nat := |items|;
      var m: nat := |r|;
      assert m < |r| <==> 0 + m * 1 < |items|;
      assert n < |r| <==> 0 + n * 1 < |items|;
    }
    forall k | 0 <= k < |r| ensures r[k] == items[k] {
      assert r[k] == items[0 + k * 1];
    }
  }
}
