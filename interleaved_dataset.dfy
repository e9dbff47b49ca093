/** The sharded interleaved corpus `InterleavedDataset`
    (interleaved_dataset.py): one "hot" shard is kept in memory, and a miss
    swaps it for the shard whose index range holds the requested sample.
    Shard files are given as their lines (`shardLines`), the JSON parser as
    `parse`, and every `random.shuffle` as a function that permutes. */
module Interleaved {
  import opened Common
  import opened JsonLines
  import opened ShardTable
  import opened SampleAssembly
  import RankPartition

  /** `__len__` with `train_num_samples` set reads `self.data_args`, which
      the class never assigns. */
  datatype LenError = AttributeError

  /** What `load_data` returns or raises. */
  datatype Fetch =
    | Record(sample: Sample)        // a copy of `current_shard_data[index - start]`
    | NoShard                       // the miss scan matched nothing: `None`
    | RecordMissing                 // IndexError: the shard holds fewer records than its range
    | LoadFailed(error: JsonlError) // `load_jsonl` raised while swapping shards

  /** What `__getitem__` ends with: an item and the index that produced it. */
  datatype Outcome =
    | Item(bundle: Bundle, index: int)
    | LengthUnavailable  // `len(self)` raised inside the retry handler
    | OutOfAttempts      // the model's bound on the otherwise unbounded retry loop

  /** `__len__`. */
  function DatasetLength(trainNumSamples: Option<int>): (r: Result<nat, LenError>)
    ensures r.Success? <==> trainNumSamples.None?
    ensures r.Success? ==> r.value == SamplesPerShard * NumShards
  {
    if trainNumSamples.Some? then Failure(AttributeError) else Success(TotalLength)
  }

  /** The index reduction at the top of `load_data`: only indices at or
      past `_length` are reduced; negative ones are left alone. */
  function Reduce(index: int): (k: int)
    ensures 0 <= index ==> 0 <= k < TotalLength && k % TotalLength == index % TotalLength
    ensures index < TotalLength ==> k == index
  {
    if index >= TotalLength then index % TotalLength else index
  }

  /** Indices one corpus length apart load the same sample position. */
  lemma {:induction false} ReducePeriodic(index: int)
    requires 0 <= index
    ensures Reduce(index + TotalLength) == Reduce(index)
  {
    assert (index + TotalLength) % TotalLength == index % TotalLength;
  }

  /** `list(range(n))`. */
  function Range(n: nat): (r: seq<nat>)
    ensures |r| == n && forall i :: 0 <= i < n ==> r[i] == i
  {
    seq(n, i requires 0 <= i => i as nat)
  }

  lemma {:induction false} RangeMultiplicity(n: nat, x: nat)
    ensures multiset(Range(n))[x] == if x < n then 1 else 0
  {
    if n > 0 {
      assert Range(n) == Range(n - 1) + [n - 1];
      RangeMultiplicity(n - 1, x);
    }
  }

  /** Any shuffle of `range(6144)` is a valid shard order. */
  lemma {:induction false} ShuffledRangeIsShardPermutation(order: seq<nat>)
    requires multiset(order) == multiset(Range(NumShards))
    ensures IsShardPermutation(order)
  {
    assert |order| == |multiset(order)| == |multiset(Range(NumShards))| == NumShards;
    forall i | 0 <= i < |order| ensures order[i] < NumShards {
      assert order[i] in multiset(order);
      RangeMultiplicity(NumShards, order[i]);
    }
    forall i, j | 0 <= i < j < |order| ensures order[i] != order[j] {
      if order[i] == order[j] {
        var x := order[i];
        assert order == order[..j] + order[j..];
        assert x in multiset(order[..j]) by { assert order[..j][i] == x; }
        assert x in multiset(order[j..]) by { assert order[j..][0] == x; }
        assert multiset(order)[x] >= 2;
        RangeMultiplicity(NumShards, x);
      }
    }
  }

  /** `shard_id_range[name]`: the first position holding `name`. */
  function PositionOf(table: seq<ShardEntry>, name: string): (r: Option<nat>)
    ensures r.Some? ==> HoldsName(table, r.value, name)
    ensures r.Some? ==> forall i :: 0 <= i < r.value ==> table[i].name != name
    ensures r.None? ==> forall i :: 0 <= i < |table| ==> table[i].name != name
  {
    if table == [] then None
    else if table[0].name == name then Some(0)
    else match PositionOf(table[1..], name)
      case None => None
      case Some(k) => Some(k + 1)
  }

  /** With distinct names the dictionary lookup finds the one holder. */
  lemma {:induction false} PositionOfHolder(order: seq<nat>, pos: nat)
    requires IsShardPermutation(order) && pos < |order|
    ensures PositionOf(BuildTable(order), BuildTable(order)[pos].name) == Some(pos)
  {
    var t := BuildTable(order);
    var r := PositionOf(t, t[pos].name);
    if r.value < pos {
      TableNamesDistinct(order, r.value, pos);
    }
  }

  /** The step of the retry loop in `__getitem__`. */
  function NextIndex(index: int): int
  {
    (index + 1) % TotalLength
  }

  /** `(index + 1) % len(self)`, where `len(self)` may raise. */
  function Retry(index: int, trainNumSamples: Option<int>): (r: Result<int, LenError>)
    ensures r.Success? <==> trainNumSamples.None?
    ensures r.Success? ==> r.value == NextIndex(index)
  {
    match DatasetLength(trainNumSamples)
    case Failure(e) => Failure(e)
    case Success(len) => Success((index + 1) % len)
  }

  /** The index tried at attempt `t` (attempt 0 is the requested index). */
  function IndexAtAttempt(index: int, t: nat): int
  {
    if t == 0 then index else NextIndex(IndexAtAttempt(index, t - 1))
  }

  /** After the first retry the indices run consecutively modulo `_length`,
      from any start index, negative ones included. */
  lemma {:induction false} IndexAtAttemptClosedForm(index: int, t: nat)
    requires t > 0
    ensures IndexAtAttempt(index, t) == (index + t) % TotalLength
    ensures 0 <= IndexAtAttempt(index, t) < TotalLength
  {
    if t > 1 {
      IndexAtAttemptClosedForm(index, t - 1);
      var a := index + t - 1;
      assert (a % TotalLength + 1) % TotalLength == (a + 1) % TotalLength by {
        assert a == (a / TotalLength) * TotalLength + a % TotalLength;
        ModShift(a % TotalLength + 1, a / TotalLength);
      }
    }
  }

  lemma {:induction false} ModShift(x: int, q: int)
    ensures (x + q * TotalLength) % TotalLength == x % TotalLength
  {
  }

  /** `data[offset]`, or the IndexError of a shard shorter than its range. */
  function At(data: seq<Sample>, offset: int): (r: Fetch)
    ensures r.Record? <==> 0 <= offset < |data|
    ensures r.Record? ==> r.sample in multiset(data) && r.sample == data[offset]
    ensures !r.Record? ==> r == RecordMissing
  {
    if 0 <= offset < |data| then Record(data[offset]) else RecordMissing
  }

  /** The ghost snapshot of the hot shard: the position named hot, the
      records in memory and the position they were loaded from. */
  datatype Hot = Hot(pos: nat, data: seq<Sample>, loaded: nat)

  /** One call of `getitem` from a hot state, for an index and an attempt
      number. */
  type Attempter = (Hot, int, nat) -> (Hot, Result<Bundle, SampleError>)

  /** The retry loop of `__getitem__` from attempt `t` on, with `n`
      attempts in all. */
  ghost function RetryLoop(attempt: Attempter, trainNumSamples: Option<int>, h: Hot, index: int, n: nat, t: nat): (Hot, Outcome)
    requires t <= n
    decreases n - t
  {
    if t == n then (h, OutOfAttempts)
    else
      var j := IndexAtAttempt(index, t);
      var step := attempt(h, j, t);
      if step.1.Success? then (step.0, Item(step.1.value, j))
      else match Retry(j, trainNumSamples)
        case Failure(_) => (step.0, LengthUnavailable)
        case Success(_) => RetryLoop(attempt, trainNumSamples, step.0, index, n, t + 1)
  }

  /** The hot state before attempt `t` when every earlier attempt failed. */
  ghost function Trail(attempt: Attempter, h: Hot, index: int, t: nat): Hot
  {
    if t == 0 then h else attempt(Trail(attempt, h, index, t - 1), IndexAtAttempt(index, t - 1), t - 1).0
  }

  /** Attempt `u`, made from the state the failures before it left, fails. */
  ghost predicate Fails(attempt: Attempter, h: Hot, index: int, u: nat)
  {
    attempt(Trail(attempt, h, index, u), IndexAtAttempt(index, u), u).1.Failure?
  }

  /** What an outcome of `__getitem__` says about the attempts behind it:
      an item comes from the first attempt that succeeds, the attempts run
      out only when every one failed, and `len(self)` raises only after the
      first attempt failed. */
  ghost predicate Explains(attempt: Attempter, trainNumSamples: Option<int>, h: Hot, index: int, n: nat, r: Outcome)
  {
    match r
    case Item(b, j) =>
      exists t :: && 0 <= t < n && j == IndexAtAttempt(index, t)
                  && attempt(Trail(attempt, h, index, t), j, t).1 == Success(b)
                  && (t > 0 ==> trainNumSamples.None?)
                  && forall u :: 0 <= u < t ==> Fails(attempt, h, index, u)
    case OutOfAttempts =>
      forall u :: 0 <= u < n ==> Fails(attempt, h, index, u)
    case LengthUnavailable =>
      trainNumSamples.Some? && n > 0 && Fails(attempt, h, index, 0)
  }

  lemma {:induction false} RetryLoopFrom(attempt: Attempter, trainNumSamples: Option<int>, h: Hot, index: int, n: nat, t: nat)
    requires t <= n
    requires forall u :: 0 <= u < t ==> Fails(attempt, h, index, u)
    requires t > 0 ==> trainNumSamples.None?
    ensures Explains(attempt, trainNumSamples, h, index, n, RetryLoop(attempt, trainNumSamples, Trail(attempt, h, index, t), index, n, t).1)
    decreases n - t
  {
    if t < n {
      var ht := Trail(attempt, h, index, t);
      var step := attempt(ht, IndexAtAttempt(index, t), t);
      if step.1.Failure? && trainNumSamples.None? {
        assert Trail(attempt, h, index, t + 1) == step.0;
        assert Fails(attempt, h, index, t);
        RetryLoopFrom(attempt, trainNumSamples, h, index, n, t + 1);
      }
    }
  }

  /** One turn of the retry loop, given what its attempt returned. */
  lemma {:induction false} RetryLoopStep(attempt: Attempter, trainNumSamples: Option<int>, h: Hot, index: int, n: nat, t: nat,
                                         step: (Hot, Result<Bundle, SampleError>))
    requires t < n && step == attempt(h, IndexAtAttempt(index, t), t)
    ensures step.1.Success? ==>
              RetryLoop(attempt, trainNumSamples, h, index, n, t) == (step.0, Item(step.1.value, IndexAtAttempt(index, t)))
    ensures step.1.Failure? && trainNumSamples.Some? ==>
              RetryLoop(attempt, trainNumSamples, h, index, n, t) == (step.0, LengthUnavailable)
    ensures step.1.Failure? && trainNumSamples.None? ==>
              RetryLoop(attempt, trainNumSamples, h, index, n, t) == RetryLoop(attempt, trainNumSamples, step.0, index, n, t + 1)
  {
  }

  /** For every attempt function, the outcome of the retry loop is
      explained by its attempts, and conversely: when every attempt fails
      the loop runs out (or, with `train_num_samples` set, `len(self)`
      raises after the first). */
  lemma {:induction false} RetryLoopExplained(attempt: Attempter, trainNumSamples: Option<int>, h: Hot, index: int, n: nat)
    ensures Explains(attempt, trainNumSamples, h, index, n, RetryLoop(attempt, trainNumSamples, h, index, n, 0).1)
    ensures (forall u :: 0 <= u < n ==> Fails(attempt, h, index, u)) ==>
              RetryLoop(attempt, trainNumSamples, h, index, n, 0).1
              == if trainNumSamples.Some? && n > 0 then LengthUnavailable else OutOfAttempts
  {
    RetryLoopFrom(attempt, trainNumSamples, h, index, n, 0);
    var r := RetryLoop(attempt, trainNumSamples, h, index, n, 0).1;
    if r.Item? && forall u :: 0 <= u < n ==> Fails(attempt, h, index, u) {
      var t :| && 0 <= t < n && r.index == IndexAtAttempt(index, t)
               && attempt(Trail(attempt, h, index, t), r.index, t).1 == Success(r.bundle);
      ghost var failed := Fails(attempt, h, index, t);
      assert false;
    }
  }

  /** A shuffle: its result is a permutation of its argument. */
  ghost predicate Permutes<T(!new)>(shuffle: seq<T> -> seq<T>)
  {
    forall s :: multiset(shuffle(s)) == multiset(s)
  }

  class InterleavedDataset {
    const order: seq<nat>
    const table: seq<ShardEntry>
    /** The lines of the shard file `data_path/name`. */
    const shardLines: string -> seq<string>
    const parse: string -> LineParse<Sample>
    /** `load_ann_file` on a shard name: every shard name ends in `.jsonl`,
        so this is `load_jsonl` over the file's lines. */
    const loadAnnFile: string -> Result<seq<Sample>, JsonlError>
    const env: Env
    const maxImages: nat
    const numImageToken: nat
    const trainNumSamples: Option<int>

    var currentShardName: string
    var currentShardData: seq<Sample>
    /** The position whose name `currentShardName` is. */
    ghost var hotPos: nat
    /** The position whose file `currentShardData` was loaded from. */
    ghost var loadedPos: nat

    /** The records of the shard file at position `pos`. */
    ghost function ShardLoad(pos: nat): Result<seq<Sample>, JsonlError>
      requires pos < |table|
    {
      loadAnnFile(table[pos].name)
    }

    /** The loader is `load_jsonl` over the lines of the named file. */
    ghost predicate LoadsJsonl()
    {
      forall name {:trigger shardLines(name)} :: loadAnnFile(name) == LoadLines(parse, shardLines(name))
    }

    ghost predicate Valid()
      reads this
    {
      && LoadsJsonl()
      && IsShardPermutation(order)
      && table == BuildTable(order)
      && HoldsName(table, hotPos, currentShardName)
      && loadedPos < |table|
      && ShardLoad(loadedPos).Success?
      && multiset(currentShardData) == multiset(ShardLoad(loadedPos).value)
    }

    /** The hot shard's data really is the hot shard's (it can stop being
        so after a failed swap). */
    ghost predicate Consistent()
      reads this
    {
      hotPos == loadedPos
    }

    /** Sets the configuration with position 0 hot and `data` as its
        records. It does not load anything and does not establish
        `Valid()`: `Open` calls it with the loaded first shard and
        proves `Valid()` afterwards. */
    constructor Init(order: seq<nat>, shardLines: string -> seq<string>, parse: string -> LineParse<Sample>,
                     env: Env, maxImages: nat, numImageToken: nat, trainNumSamples: Option<int>,
                     data: seq<Sample>)
      ensures this.order == order && table == BuildTable(order)
      ensures this.shardLines == shardLines && this.parse == parse && this.env == env
      ensures LoadsJsonl()
      ensures this.maxImages == maxImages && this.numImageToken == numImageToken
      ensures this.trainNumSamples == trainNumSamples
      ensures currentShardData == data && hotPos == 0 && loadedPos == 0
      ensures |order| > 0 ==> currentShardName == ShardName(order[0])
    {
      this.order := order;
      this.table := BuildTable(order);
      this.shardLines := shardLines;
      this.parse := parse;
      this.loadAnnFile := name => LoadLines(parse, shardLines(name));
      this.env := env;
      this.maxImages := maxImages;
      this.numImageToken := numImageToken;
      this.trainNumSamples := trainNumSamples;
      currentShardName := if |order| > 0 then ShardName(order[0]) else "";
      currentShardData := data;
      hotPos := 0;
      loadedPos := 0;
    }

    /** `__init__`: the shard order is `range(6144)` (partitioned for the
        single rank, then shuffled when resampling), and the hot shard is the
        one at position 0, loaded and shuffled. */
    static method Open(shardLines: string -> seq<string>, parse: string -> LineParse<Sample>,
                       env: Env, maxImages: nat, numImageToken: nat, trainNumSamples: Option<int>,
                       resampled: bool, shuffleOrder: seq<nat> -> seq<nat>, shuffle: seq<Sample> -> seq<Sample>)
      returns (r: Result<InterleavedDataset, JsonlError>)
      requires Permutes(shuffleOrder) && Permutes(shuffle)
      ensures var order := if resampled then shuffleOrder(Range(NumShards)) else Range(NumShards);
              && |order| == NumShards
              && (r.Success? <==> LoadLines(parse, shardLines(ShardName(order[0]))).Success?)
              && (r.Failure? ==> r.error == LoadLines(parse, shardLines(ShardName(order[0]))).error)
              && (r.Success? ==> fresh(r.value) && r.value.Valid() && r.value.Consistent()
                                 && r.value.order == order && r.value.hotPos == 0)
              && (r.Success? ==> && r.value.shardLines == shardLines && r.value.parse == parse
                                 && r.value.env == env && r.value.maxImages == maxImages
                                 && r.value.numImageToken == numImageToken
                                 && r.value.trainNumSamples == trainNumSamples
                                 && r.value.currentShardName == ShardName(order[0])
                                 && r.value.currentShardData
                                    == shuffle(LoadLines(parse, shardLines(ShardName(order[0]))).value))
    {
      var order := RankPartition.SingleRankIsIdentity(Range(NumShards));
      if resampled {
        order := shuffleOrder(order);
      }
      ShuffledRangeIsShardPermutation(order);
      var name := ShardName(order[0]);
      var loaded := LoadJsonl(parse, shardLines(name));
      if loaded.Failure? {
        return Failure(loaded.error);
      }
      var d := new InterleavedDataset.Init(order, shardLines, parse, env, maxImages, numImageToken,
                                           trainNumSamples, shuffle(loaded.value));
      TableLayout(order, 0);
      return Success(d);
    }

    ghost function HotState(): Hot
      reads this
    {
      Hot(hotPos, currentShardData, loadedPos)
    }

    // ------------------------------------------------------------ specification

    /** Naming the shard at position `p` hot for sample position `k`: its
        file is loaded and shuffled and the record read, or the load raises
        and the old records stay in memory under the new name. */
    ghost function HotStep(h: Hot, p: nat, k: int, shuffle: seq<Sample> -> seq<Sample>): (r: (Hot, Fetch))
      requires p < |table|
      ensures r.0.pos == p
    {
      var load := ShardLoad(p);
      if load.Failure? then (Hot(p, h.data, h.loaded), LoadFailed(load.error))
      else
        var data := shuffle(load.value);
        (Hot(p, data, p), At(data, k - table[p].start))
    }

    /** The miss branch, given what the scan found. */
    ghost function MissStep(h: Hot, found: Option<nat>, k: int, shuffle: seq<Sample> -> seq<Sample>): (r: (Hot, Fetch))
      requires h.pos < |table| && (found.Some? ==> found.value < |table|)
      ensures r.0.pos < |table|
    {
      match found
      case None => (h, NoShard)
      case Some(p) => HotStep(h, p, k, shuffle)
    }

    /** `load_data` for a reduced index `k`: the inclusive hit test on the
        hot shard, otherwise the half-open scan as written. */
    ghost function LoadStep(h: Hot, k: int, shuffle: seq<Sample> -> seq<Sample>): (r: (Hot, Fetch))
      requires h.pos < |table|
      ensures r.0.pos < |table|
      ensures r.1.Record? ==> Covers(table[r.0.pos], k)
      ensures r.1.NoShard? ==> r.0 == h
      ensures r.1.LoadFailed? ==> r.0.data == h.data && r.0.loaded == h.loaded
    {
      if Covers(table[h.pos], k) then (h, At(h.data, k - table[h.pos].start))
      else MissStep(h, ScanHalfOpen(table, k), k, shuffle)
    }

    /** What `getitem` makes of what `load_data` returned. */
    function ItemOf(f: Fetch): (r: Result<Bundle, SampleError>)
      ensures r.Success? ==> f.Record? && WellFormedBundle(r.value, env, maxImages, numImageToken)
    {
      match f
      case Record(sample) => Assembled(sample, env, maxImages, numImageToken)
      case NoShard => Failure(NoRecord)
      case RecordMissing => Failure(RecordIndexError)
      case LoadFailed(_) => Failure(ShardLoadFailed)
    }

    /** One call of `getitem`. */
    ghost function Attempt(h: Hot, index: int, shuffle: seq<Sample> -> seq<Sample>): (r: (Hot, Result<Bundle, SampleError>))
      requires h.pos < |table|
      ensures r.0.pos < |table|
    {
      var step := LoadStep(h, Reduce(index), shuffle);
      (step.0, ItemOf(step.1))
    }

    /** Attempt `t` of `__getitem__`, as a function of the hot state and
        the index: `getitem` with the `t`-th shuffle. */
    ghost function Attempts(shuffles: seq<seq<Sample> -> seq<Sample>>): Attempter
    {
      (h: Hot, j: int, t: nat) =>
        if h.pos < |table| && t < |shuffles| then Attempt(h, j, shuffles[t]) else (h, Failure(NoRecord))
    }

    lemma {:induction false} AttemptsAt(shuffles: seq<seq<Sample> -> seq<Sample>>, h: Hot, j: int, t: nat)
      requires h.pos < |table| && t < |shuffles|
      ensures Attempts(shuffles)(h, j, t) == Attempt(h, j, shuffles[t])
    {
    }

    /** For every hot state, a miss for an index in the last slot of a
        shard's range changes nothing and returns `None`. */
    lemma {:induction false} LoadStepShardEnd(h: Hot, k: int, shuffle: seq<Sample> -> seq<Sample>)
      requires h.pos < |table| && table == BuildTable(order)
      requires k % SamplesPerShard == SamplesPerShard - 1 && !Covers(table[h.pos], k)
      ensures LoadStep(h, k, shuffle) == (h, NoShard)
    {
      ShardEndMissed(order, k);
    }

    // ------------------------------------------------------------ operations

    /** `load_data`. The hot-shard hit returns a record and changes nothing;
        a miss hands over to `Swap`. */
    method LoadData(index: int, shuffle: seq<Sample> -> seq<Sample>) returns (r: Fetch)
      requires Valid() && Permutes(shuffle)
      modifies this
      ensures Valid()
      ensures (HotState(), r) == LoadStep(old(HotState()), Reduce(index), shuffle)
      ensures Covers(table[old(hotPos)], Reduce(index)) ==> unchanged(this)
      ensures Reduce(index) % SamplesPerShard == SamplesPerShard - 1 && !Covers(table[old(hotPos)], Reduce(index)) ==>
                r == NoShard && unchanged(this)
      ensures r.LoadFailed? ==> !Consistent()
      ensures r.Record? && old(Consistent()) ==>
                Consistent() && Covers(table[hotPos], Reduce(index))
                && r.sample in multiset(ShardLoad(hotPos).value)
    {
      var k := if index >= TotalLength then index % TotalLength else index;
      assert k == Reduce(index);
      PositionOfHolder(order, hotPos);
      var hot := PositionOf(table, currentShardName).value;
      assert hot == hotPos;
      var e := table[hot];
      if e.start <= k <= e.end {
        assert Covers(table[hotPos], k);
        r := At(currentShardData, k - e.start);
        return;
      }
      r := Swap(k, shuffle);
    }

    /** The miss branch of `load_data` as written: scan the table in order
        for the first shard whose half-open range `start <= k < end` holds
        `k`, name it hot, then load and shuffle its file. The last index of
        every shard is found by no such range. */
    method Swap(k: int, shuffle: seq<Sample> -> seq<Sample>) returns (r: Fetch)
      requires Valid() && Permutes(shuffle)
      modifies this
      ensures Valid()
      ensures (HotState(), r) == MissStep(old(HotState()), ScanHalfOpen(table, k), k, shuffle)
      ensures k % SamplesPerShard == SamplesPerShard - 1 ==> r == NoShard && unchanged(this)
      ensures r.LoadFailed? ==>
                currentShardData == old(currentShardData) && loadedPos == old(loadedPos) && !Consistent()
      ensures r.Record? ==>
                Consistent() && Covers(table[hotPos], k) && r.sample in multiset(ShardLoad(hotPos).value)
    {
      ShardEndMissed(order, k);
      for i := 0 to |table|
        invariant forall j :: 0 <= j < i ==> !CoversHalfOpen(table[j], k)
      {
        var entry := table[i];
        if entry.start <= k < entry.end {
          assert ScanHalfOpen(table, k) == Some(i);
          r := MakeHot(i, k, shuffle);
          return;
        }
      }
      return NoShard;
    }

    /** The miss branch with the scan made inclusive, like the hit test:
        every index of the corpus is then found. */
    method SwapInclusive(k: int, shuffle: seq<Sample> -> seq<Sample>) returns (r: Fetch)
      requires Valid() && Permutes(shuffle)
      modifies this
      ensures Valid()
      ensures (HotState(), r) == MissStep(old(HotState()), Scan(table, k), k, shuffle)
      ensures 0 <= k < TotalLength ==> r != NoShard && hotPos == k / SamplesPerShard
    {
      ScanFindsOwner(order, k);
      for i := 0 to |table|
        invariant forall j :: 0 <= j < i ==> !Covers(table[j], k)
      {
        var entry := table[i];
        if entry.start <= k <= entry.end {
          assert Scan(table, k) == Some(i);
          r := MakeHot(i, k, shuffle);
          return;
        }
      }
      return NoShard;
    }

    /** `load_data` with the inclusive miss scan: no index of the corpus,
        and no non-negative index at all, comes back as `None`. */
    method LoadDataInclusive(index: int, shuffle: seq<Sample> -> seq<Sample>) returns (r: Fetch)
      requires Valid() && Permutes(shuffle)
      modifies this
      ensures Valid()
      ensures Covers(table[old(hotPos)], Reduce(index)) ==>
                unchanged(this) && r == At(currentShardData, Reduce(index) - table[hotPos].start)
      ensures !Covers(table[old(hotPos)], Reduce(index)) ==>
                (HotState(), r) == MissStep(old(HotState()), Scan(table, Reduce(index)), Reduce(index), shuffle)
      ensures 0 <= index ==> r != NoShard
    {
      var k := if index >= TotalLength then index % TotalLength else index;
      assert k == Reduce(index);
      PositionOfHolder(order, hotPos);
      var hot := PositionOf(table, currentShardName).value;
      var e := table[hot];
      if e.start <= k <= e.end {
        r := At(currentShardData, k - e.start);
        return;
      }
      r := SwapInclusive(k, shuffle);
    }

    /** `load_ann_file(os.path.join(data_path, name))`. */
    method LoadAnnFile(name: string) returns (r: Result<seq<Sample>, JsonlError>)
      requires LoadsJsonl()
      ensures r == loadAnnFile(name)
    {
      r := LoadJsonl(parse, shardLines(name));
    }

    /** Name the shard at position `pos` hot, then load and shuffle its
        file and read the record at `k`; a load that raises leaves the old
        data in place. */
    method MakeHot(pos: nat, k: int, shuffle: seq<Sample> -> seq<Sample>) returns (r: Fetch)
      requires Valid() && Permutes(shuffle) && pos < |table|
      modifies this
      ensures Valid()
      ensures (HotState(), r) == HotStep(old(HotState()), pos, k, shuffle)
      ensures r.LoadFailed? ==>
                currentShardData == old(currentShardData) && loadedPos == old(loadedPos) && !Consistent()
      ensures r.Record? ==> Consistent() && r.sample in multiset(ShardLoad(hotPos).value)
    {
      var entry := table[pos];
      currentShardName := entry.name;
      hotPos := pos;
      var loaded := LoadAnnFile(entry.name);
      if loaded.Failure? {
        return LoadFailed(loaded.error);
      }
      currentShardData := shuffle(loaded.value);
      loadedPos := pos;
      r := At(currentShardData, k - entry.start);
    }

    /** `getitem`: load the record, then validate and assemble it; every
        way `load_data` fails becomes the matching error. */
    method GetItem(index: int, shuffle: seq<Sample> -> seq<Sample>) returns (r: Result<Bundle, SampleError>)
      requires Valid() && Permutes(shuffle)
      modifies this
      ensures Valid()
      ensures (HotState(), r) == Attempt(old(HotState()), index, shuffle)
      ensures r.Success? ==> WellFormedBundle(r.value, env, maxImages, numImageToken)
    {
      var fetched := LoadData(index, shuffle);
      match fetched
      case Record(sample) =>
        r := Assemble(sample, env, maxImages, numImageToken);
      case NoShard =>
        r := Failure(NoRecord);
      case RecordMissing =>
        r := Failure(RecordIndexError);
      case LoadFailed(_) =>
        r := Failure(ShardLoadFailed);
    }

    /** `__getitem__`: on any failure move on to `(index + 1) % len(self)`.
        The source loops until some index succeeds; here attempt `t` uses
        `shuffles[t]`, and the loop stops when they run out. */
    method GetItemSkipping(index: int, shuffles: seq<seq<Sample> -> seq<Sample>>) returns (r: Outcome)
      requires Valid()
      requires forall t :: 0 <= t < |shuffles| ==> Permutes(shuffles[t])
      modifies this
      ensures Valid()
      ensures (HotState(), r) == RetryLoop(Attempts(shuffles), trainNumSamples, old(HotState()), index, |shuffles|, 0)
      ensures r.Item? ==> WellFormedBundle(r.bundle, env, maxImages, numImageToken)
      ensures r.LengthUnavailable? <==> trainNumSamples.Some? && r != OutOfAttempts && !r.Item?
    {
      ghost var attempts := Attempts(shuffles);
      ghost var spec := RetryLoop(attempts, trainNumSamples, HotState(), index, |shuffles|, 0);
      var i := index;
      var t := 0;
      while t < |shuffles|
        invariant Valid()
        invariant 0 <= t <= |shuffles|
        invariant i == IndexAtAttempt(index, t)
        invariant RetryLoop(attempts, trainNumSamples, HotState(), index, |shuffles|, t) == spec
      {
        ghost var before := HotState();
        var attempt := GetItem(i, shuffles[t]);
        AttemptsAt(shuffles, before, i, t);
        RetryLoopStep(attempts, trainNumSamples, before, index, |shuffles|, t, (HotState(), attempt));
        if attempt.Success? {
          return Item(attempt.value, i);
        }
        var next := Retry(i, trainNumSamples);
        if next.Failure? {
          return LengthUnavailable;
        }
        i := next.value;
        t := t + 1;
      }
      return OutOfAttempts;
    }
  }
}
