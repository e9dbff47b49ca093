/** The hard-coded shard table of `InterleavedDataset.__init__`
    (interleaved_dataset.py): shard file names built from a permutation of
    shard ids, each mapped to an index range of `SamplesPerShard` samples,
    and the two scans over it that `load_data` performs. */
module ShardTable {
  import opened Common

  /** `num_samples_each_shard`. */
  const SamplesPerShard: nat := 34190
  /** The number of shard files, `len(range(6144))`. */
  const NumShards: nat := 6144
  /** `_length = num_samples_each_shard * 6144`. */
  const TotalLength: nat := SamplesPerShard * NumShards

  /** One entry of `shard_id_range`: a name and its `(start, end)` pair,
      where `end` is the LAST index of the shard (inclusive). */
  datatype ShardEntry = ShardEntry(name: string, start: int, end: int)

  /** The decimal digit for `d`. */
  function DigitChar(d: nat): char
    requires d < 10
  {
    ('0' as int + d) as char
  }

  /** `f'{n}'` for a non-negative integer. */
  function Decimal(n: nat): (s: string)
    ensures |s| >= 1
    ensures n < 10 <==> |s| == 1
    decreases n
  {
    if n < 10 then [DigitChar(n)] else Decimal(n / 10) + [DigitChar(n % 10)]
  }

  lemma {:induction false} DecimalInjective(a: nat, b: nat)
    requires Decimal(a) == Decimal(b)
    ensures a == b
    decreases a
  {
    var s := Decimal(a);
    if a >= 10 && b >= 10 {
      var qa, ra, qb, rb := a / 10, a % 10, b / 10, b % 10;
      assert DigitChar(ra) == s[|s| - 1] == DigitChar(rb);
      assert Decimal(qa) == s[..|s| - 1] == Decimal(qb);
      DecimalInjective(qa, qb);
      assert a == 10 * qa + ra && b == 10 * qb + rb;
    } else {
      assert a < 10 && b < 10;
      assert DigitChar(a) == s[0] == DigitChar(b);
    }
  }

  const NamePrefix := "data0417_shuffled_shard_"
  const NameSuffix := ".jsonl"

  /** `f'data0417_shuffled_shard_{id}.jsonl'`. */
  function ShardName(id: nat): string
  {
    NamePrefix + Decimal(id) + NameSuffix
  }

  /** Distinct shard ids give distinct file names. */
  lemma {:induction false} ShardNameInjective(a: nat, b: nat)
    requires ShardName(a) == ShardName(b)
    ensures a == b
  {
    var sa, sb := ShardName(a), ShardName(b);
    var p := |NamePrefix|;
    assert Decimal(a) == sa[p..|sa| - |NameSuffix|];
    assert Decimal(b) == sb[p..|sb| - |NameSuffix|];
    DecimalInjective(a, b);
  }

  /** `shard_order` is a shuffle of `range(6144)`. */
  predicate IsShardPermutation(order: seq<nat>)
  {
    && |order| == NumShards
    && (forall i :: 0 <= i < |order| ==> order[i] < NumShards)
    && (forall i, j :: 0 <= i < j < |order| ==> order[i] != order[j])
  }

  /** The dict comprehension building `shard_id_range`, in insertion order. */
  function BuildTable(order: seq<nat>): (t: seq<ShardEntry>)
    ensures |t| == |order|
  {
    seq(|order|, i requires 0 <= i < |order| =>
      ShardEntry(ShardName(order[i]), SamplesPerShard * i, SamplesPerShard * (i + 1) - 1))
  }

  /** Position `i` of the table holds the shard `order[i]` with the index
      range `[N*i, N*(i+1) - 1]`, and the ranges are consecutive. */
  lemma {:induction false} TableLayout(order: seq<nat>, i: nat)
    requires i < |order|
    ensures BuildTable(order)[i].name == ShardName(order[i])
    ensures BuildTable(order)[i].start == SamplesPerShard * i
    ensures BuildTable(order)[i].end == BuildTable(order)[i].start + SamplesPerShard - 1
    ensures i + 1 < |order| ==> BuildTable(order)[i + 1].start == BuildTable(order)[i].end + 1
  {
  }

  /** The names are distinct (so the dict has one entry per position). */
  lemma {:induction false} TableNamesDistinct(order: seq<nat>, i: nat, j: nat)
    requires IsShardPermutation(order)
    requires i < j < |order|
    ensures BuildTable(order)[i].name != BuildTable(order)[j].name
  {
    if BuildTable(order)[i].name == BuildTable(order)[j].name {
      ShardNameInjective(order[i], order[j]);
    }
  }

  /** `shard_id_range[name]`: the position holding `name`. */
  predicate HoldsName(table: seq<ShardEntry>, pos: nat, name: string)
  {
    pos < |table| && table[pos].name == name
  }

  /** The inclusive containment test of the hot-shard hit (line 171). */
  predicate Covers(e: ShardEntry, index: int)
  {
    e.start <= index <= e.end
  }

  /** The half-open containment test of the miss scan as written (line 175). */
  predicate CoversHalfOpen(e: ShardEntry, index: int)
  {
    e.start <= index < e.end
  }

  lemma {:induction false} CoversDivision(order: seq<nat>, i: nat, index: int)
    requires i < |order|
    ensures Covers(BuildTable(order)[i], index) <==> (0 <= index && index / SamplesPerShard == i)
  {
  }

  /** The miss scan as written: the first position whose half-open range
      contains `index`. */
  function ScanHalfOpen(table: seq<ShardEntry>, index: int): (r: Option<nat>)
    ensures r.Some? ==> r.value < |table| && CoversHalfOpen(table[r.value], index)
    ensures r.Some? ==> forall i :: 0 <= i < r.value ==> !CoversHalfOpen(table[i], index)
    ensures r.None? ==> forall i :: 0 <= i < |table| ==> !CoversHalfOpen(table[i], index)
  {
    if table == [] then None
    else if CoversHalfOpen(table[0], index) then Some(0)
    else match ScanHalfOpen(table[1..], index)
      case None => None
      case Some(k) => Some(k + 1)
  }

  /** The miss scan made consistent with the hit test: the first position
      whose inclusive range contains `index`. */
  function Scan(table: seq<ShardEntry>, index: int): (r: Option<nat>)
    ensures r.Some? ==> r.value < |table| && Covers(table[r.value], index)
    ensures r.Some? ==> forall i :: 0 <= i < r.value ==> !Covers(table[i], index)
    ensures r.None? ==> forall i :: 0 <= i < |table| ==> !Covers(table[i], index)
  {
    if table == [] then None
    else if Covers(table[0], index) then Some(0)
    else match Scan(table[1..], index)
      case None => None
      case Some(k) => Some(k + 1)
  }

  /** With the inclusive scan every index of the corpus, `0 <= index <
      _length`, is found, in the shard at position `index / N`; negative
      indices are found nowhere. */
  lemma {:induction false} ScanFindsOwner(order: seq<nat>, index: int)
    requires |order| == NumShards
    ensures 0 <= index < TotalLength ==> Scan(BuildTable(order), index) == Some(index / SamplesPerShard)
    ensures index < 0 ==> Scan(BuildTable(order), index) == None
  {
    var t := BuildTable(order);
    if 0 <= index < TotalLength {
      var p := index / SamplesPerShard;
      CoversDivision(order, p, index);
      var r := Scan(t, index);
      if r != Some(p) {
        if r.Some? {
          CoversDivision(order, r.value, index);
        }
      }
    } else if index < 0 {
      var r := Scan(t, index);
      if r.Some? {
        CoversDivision(order, r.value, index);
      }
    }
  }

  /** The scan as written misses the last index `N*(i+1) - 1` of every
      shard: no half-open range contains it, although the inclusive hit
      test would serve it. */
  lemma {:induction false} ScanHalfOpenMissesShardEnd(order: seq<nat>, i: nat)
    requires |order| == NumShards && i < NumShards
    ensures ScanHalfOpen(BuildTable(order), SamplesPerShard * (i + 1) - 1) == None
    ensures Scan(BuildTable(order), SamplesPerShard * (i + 1) - 1) == Some(i)
  {
    var t := BuildTable(order);
    var index := SamplesPerShard * (i + 1) - 1;
    DivModUnique(index, SamplesPerShard, i, SamplesPerShard - 1);
    var r := ScanHalfOpen(t, index);
    if r.Some? {
      HalfOpenDivision(order, r.value, index);
    }
    ScanFindsOwner(order, index);
  }

  /** A half-open range holds only indices of its shard that are not the
      shard's last. */
  lemma {:induction false} HalfOpenDivision(order: seq<nat>, j: nat, index: int)
    requires j < |order| && CoversHalfOpen(BuildTable(order)[j], index)
    ensures 0 <= index && index / SamplesPerShard == j && index % SamplesPerShard < SamplesPerShard - 1
  {
    var m := index - SamplesPerShard * j;
    DivModUnique(index, SamplesPerShard, j, m);
  }

  /** For every shard order and every index, the scan as written finds
      nothing for an index in the last slot of a shard's range (this
      includes `-1`, whose remainder is also `N - 1`). */
  lemma {:induction false} ShardEndMissed(order: seq<nat>, index: int)
    ensures index % SamplesPerShard == SamplesPerShard - 1 ==> ScanHalfOpen(BuildTable(order), index) == None
  {
    var r := ScanHalfOpen(BuildTable(order), index);
    if r.Some? {
      HalfOpenDivision(order, r.value, index);
    }
  }

  /** A concrete instance: index 34189, the last sample of the shard at
      position 0, is found by no half-open range. */
  lemma {:induction false} FirstShardEndMissed(order: seq<nat>)
    requires |order| == NumShards
    ensures ScanHalfOpen(BuildTable(order), 34189) == None
  {
    ScanHalfOpenMissesShardEnd(order, 0);
  }
}
