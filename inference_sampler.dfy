/** The balanced contiguous partition of `InferenceSampler`
    (evaluate_grounding.py): rank `r` of `W` evaluates one block of
    consecutive sample indices, and the first `total % W` ranks take one
    extra sample. The rank and world size come from the process group and
    are parameters. */
module InferenceSampler {
  import opened Common

  /** `range(begin, end)`. */
  datatype IndexRange = IndexRange(begin: int, end: int)

  datatype SamplerError = NonPositiveSize  // `assert size > 0`

  /** A constructed sampler: its size, rank, world size and local range. */
  datatype Sampler = Sampler(size: nat, rank: nat, world: nat, local: IndexRange)

  /** `shard_sizes`: `total // W`, plus one for the first `total % W` ranks;
      so any two sizes differ by at most one and a lower rank never gets
      fewer samples than a higher one. */
  function ShardSizes(total: nat, world: nat): (s: seq<nat>)
    requires world > 0
    ensures |s| == world
    ensures forall r :: 0 <= r < world ==> s[r] == total / world + (if r < total % world then 1 else 0)
    ensures forall a, b :: 0 <= a <= b < world ==> 0 <= s[a] - s[b] <= 1
  {
    seq(world, r requires 0 <= r < world => total / world + (if r < total % world then 1 else 0))
  }

  /** `_get_local_indices`. */
  function LocalIndices(total: nat, world: nat, rank: nat): (r: IndexRange)
    requires world > 0 && rank < world
    ensures r.begin <= r.end <= total
  {
    var sizes := ShardSizes(total, world);
    PrefixSumMonotone(sizes, rank, rank + 1);
    PrefixSumMonotone(sizes, rank, world);
    SizesSumToTotal(total, world);
    assert sizes[..world] == sizes;
    IndexRange(Sum(sizes[..rank]), Min(Sum(sizes[..rank + 1]), total))
  }

  /** Closed form of the prefix sums: the first `r` ranks hold
      `r * (total // W) + min(r, total % W)` samples. */
  lemma {:induction false} PrefixSumClosedForm(total: nat, world: nat, r: nat)
    requires world > 0 && r <= world
    ensures Sum(ShardSizes(total, world)[..r]) == r * (total / world) + Min(r, total % world)
  {
    BalancedPrefixSum(ShardSizes(total, world), total / world, total % world, r);
  }

  /** The same for any sequence of `q`s whose first `rem` entries carry
      one extra. */
  lemma {:induction false} BalancedPrefixSum(sizes: seq<nat>, q: nat, rem: nat, r: nat)
    requires r <= |sizes|
    requires forall j :: 0 <= j < |sizes| ==> sizes[j] == q + (if j < rem then 1 else 0)
    ensures Sum(sizes[..r]) == r * q + Min(r, rem)
  {
    if r > 0 {
      BalancedPrefixSum(sizes, q, rem, r - 1);
      assert sizes[..r][..r - 1] == sizes[..r - 1];
      MulStep(r, q);
    }
  }

  lemma MulStep(r: int, q: int)
    ensures r * q == (r - 1) * q + q
  {
  }

  /** Prefix sums of a sequence of naturals never decrease. */
  lemma {:induction false} PrefixSumMonotone(s: seq<nat>, i: nat, j: nat)
    requires i <= j <= |s|
    ensures Sum(s[..i]) <= Sum(s[..j])
    decreases j - i
  {
    if i < j {
      PrefixSumMonotone(s, i, j - 1);
      assert s[..j][..j - 1] == s[..j - 1];
    }
  }

  /** The sizes add up to `total`. */
  lemma {:induction false} SizesSumToTotal(total: nat, world: nat)
    requires world > 0
    ensures Sum(ShardSizes(total, world)) == total
  {
    var q, rem := total / world, total % world;
    PrefixSumClosedForm(total, world, world);
    assert ShardSizes(total, world)[..world] == ShardSizes(total, world);
    assert total == world * q + rem;
  }

  /** The `min(..., total)` in `end` never bites: `end` is the prefix
      sum of the sizes through `rank`. */
  lemma {:induction false} EndIsPrefixSum(total: nat, world: nat, rank: nat)
    requires world > 0 && rank < world
    ensures LocalIndices(total, world, rank).end == Sum(ShardSizes(total, world)[..rank + 1])
  {
    var sizes := ShardSizes(total, world);
    SizesSumToTotal(total, world);
    PrefixSumMonotone(sizes, rank + 1, world);
    assert sizes[..world] == sizes;
  }

  /** Both ends of a rank's range in closed form. */
  lemma {:induction false} LocalIndicesClosedForm(total: nat, world: nat, rank: nat)
    requires world > 0 && rank < world
    ensures LocalIndices(total, world, rank).begin == rank * (total / world) + Min(rank, total % world)
    ensures LocalIndices(total, world, rank).end
            == (rank + 1) * (total / world) + Min(rank + 1, total % world)
  {
    PrefixSumClosedForm(total, world, rank);
    PrefixSumClosedForm(total, world, rank + 1);
    EndIsPrefixSum(total, world, rank);
  }

  /** Rank `rank` gets `total // W + (1 if rank < total % W else 0)` samples. */
  lemma {:induction false} LocalSize(total: nat, world: nat, rank: nat)
    requires world > 0 && rank < world
    ensures LocalIndices(total, world, rank).end - LocalIndices(total, world, rank).begin
            == total / world + (if rank < total % world then 1 else 0)
  {
    var sizes := ShardSizes(total, world);
    EndIsPrefixSum(total, world, rank);
    assert sizes[..rank + 1][..rank] == sizes[..rank];
  }

  /** The ranges tile `[0, total)`: the first starts at 0, each ends where
      the next begins, and the last ends at `total`. */
  lemma {:induction false} RangesTile(total: nat, world: nat, rank: nat)
    requires world > 0 && rank < world
    ensures LocalIndices(total, world, 0).begin == 0
    ensures rank + 1 < world ==> LocalIndices(total, world, rank).end == LocalIndices(total, world, rank + 1).begin
    ensures LocalIndices(total, world, world - 1).end == total
  {
    var sizes := ShardSizes(total, world);
    EndIsPrefixSum(total, world, rank);
    EndIsPrefixSum(total, world, world - 1);
    SizesSumToTotal(total, world);
    assert sizes[..world] == sizes;
  }

  /** Every sample index in `[0, total)` belongs to exactly one rank. */
  lemma {:induction false} EachIndexHasOneOwner(total: nat, world: nat, i: int)
    requires world > 0 && 0 <= i < total
    ensures exists rank :: 0 <= rank < world
              && LocalIndices(total, world, rank).begin <= i < LocalIndices(total, world, rank).end
    ensures forall r1, r2 :: 0 <= r1 < world && 0 <= r2 < world
              && LocalIndices(total, world, r1).begin <= i < LocalIndices(total, world, r1).end
              && LocalIndices(total, world, r2).begin <= i < LocalIndices(total, world, r2).end
              ==> r1 == r2
  {
    RangesTile(total, world, 0);
    FindOwner(total, world, i, 0);
    forall r1, r2 | 0 <= r1 < world && 0 <= r2 < world
              && LocalIndices(total, world, r1).begin <= i < LocalIndices(total, world, r1).end
              && LocalIndices(total, world, r2).begin <= i < LocalIndices(total, world, r2).end
      ensures r1 == r2
    {
      if r1 < r2 {
        EndsBeforeLaterBegins(total, world, r1, r2);
      } else if r2 < r1 {
        EndsBeforeLaterBegins(total, world, r2, r1);
      }
    }
  }

  lemma {:induction false} FindOwner(total: nat, world: nat, i: int, r: nat)
    requires world > 0 && r < world && LocalIndices(total, world, r).begin <= i < total
    ensures exists rank :: r <= rank < world
              && LocalIndices(total, world, rank).begin <= i < LocalIndices(total, world, rank).end
    decreases world - r
  {
    RangesTile(total, world, r);
    if i >= LocalIndices(total, world, r).end {
      FindOwner(total, world, i, r + 1);
    }
  }

  /** Blocks come in ascending rank order: a lower rank's block ends at
      or before a higher rank's block begins. */
  lemma {:induction false} EndsBeforeLaterBegins(total: nat, world: nat, a: nat, b: nat)
    requires world > 0 && a < b < world
    ensures LocalIndices(total, world, a).end <= LocalIndices(total, world, b).begin
    decreases b - a
  {
    RangesTile(total, world, a);
    if a + 1 < b {
      EndsBeforeLaterBegins(total, world, a + 1, b);
      LocalSize(total, world, a + 1);
    }
  }

  /** `InferenceSampler(size)`: `size` must be positive. */
  function NewSampler(size: int, rank: nat, world: nat): (r: Result<Sampler, SamplerError>)
    requires world > 0 && rank < world
    ensures r.Success? <==> size > 0
    ensures r.Success? ==> r.value.local == LocalIndices(size, world, rank)
  {
    if size <= 0 then Failure(NonPositiveSize)
    else Success(Sampler(size, rank, world, LocalIndices(size, world, rank)))
  }

  /** `__iter__`: the indices of the local range, ascending. */
  function Iter(s: Sampler): (xs: seq<int>)
  {
    var n := if s.local.end >= s.local.begin then s.local.end - s.local.begin else 0;
    seq(n, k requires 0 <= k < n => s.local.begin + k)
  }

  /** `__len__`. */
  function Len(s: Sampler): int
  {
    |Iter(s)|
  }

  /** A sampler yields `end - begin` indices, consecutive and ascending,
      all within `[0, size)`. */
  lemma {:induction false} IterSpec(size: int, rank: nat, world: nat)
    requires world > 0 && rank < world && size > 0
    ensures var s := NewSampler(size, rank, world).value;
            && Len(s) == s.local.end - s.local.begin
            && (forall k :: 0 <= k < |Iter(s)| ==> Iter(s)[k] == s.local.begin + k)
            && (forall k :: 0 <= k < |Iter(s)| ==> 0 <= Iter(s)[k] < size)
  {
    var sizes := ShardSizes(size, world);
    LocalSize(size, world, rank);
    EndIsPrefixSum(size, world, rank);
    SizesSumToTotal(size, world);
    PrefixSumMonotone(sizes, rank + 1, world);
    assert sizes[..world] == sizes;
  }

  /** What ranks `0 .. m-1` iterate, in rank order. */
  function AllIters(size: nat, world: nat, m: nat): seq<int>
    requires world > 0 && m <= world && size > 0
  {
    if m == 0 then [] else AllIters(size, world, m - 1) + Iter(NewSampler(size, m - 1, world).value)
  }

  /** `0 .. b-1` followed by `b .. e-1` is `0 .. e-1`. */
  lemma {:induction false} ConsecutiveConcat(prev: seq<int>, next: seq<int>, b: nat, e: nat)
    requires prev == seq(b, k => k) && b <= e && |next| == e - b
    requires forall k :: 0 <= k < |next| ==> next[k] == b + k
    ensures prev + next == seq(e, k => k)
  {
    var all := prev + next;
    forall k | 0 <= k < e
      ensures all[k] == k
    {
      if k >= b {
        assert all[k] == next[k - b];
      }
    }
  }

  /** The ranks together iterate `0, 1, ..., size - 1` exactly once, in
      order: the partition of the evaluation set. */
  lemma {:induction false} AllItersCount(size: nat, world: nat, m: nat)
    requires world > 0 && m <= world && size > 0
    ensures m > 0 ==> AllIters(size, world, m) == seq(LocalIndices(size, world, m - 1).end, k => k)
  {
    if m > 0 {
      var s := NewSampler(size, m - 1, world).value;
      var prev := if m == 1 then [] else AllIters(size, world, m - 1);
      IterSpec(size, m - 1, world);
      if m > 1 {
        AllItersCount(size, world, m - 1);
        RangesTile(size, world, m - 2);
      } else {
        RangesTile(size, world, 0);
      }
      ConsecutiveConcat(prev, Iter(s), s.local.begin, s.local.end);
    }
  }
}
