/** The index arithmetic and per-item rules of `LazySupervisedDataset`
    (internvl_chat_pretrain.py): contiguous per-rank line slices, the
    dataset length, the retry loop of `__getitem__`, the `<image>` prefix
    of the first turn, and the patch counts of the multi-modal and
    text-only items. JSON parsing, image loading and the conversation
    preprocessing are parameters. */
module LazySupervised {
  import opened Common
  import opened Tiling
  import opened SampleAssembly

  /** `force_image_size` default of the training arguments. */
  const DefaultForceImageSize: nat := 224
  /** The side of the blank image `pure_text_get_item` tiles. */
  const BlankSide: nat := 224

  // ---------------------------------------------------------------- rank slicing

  /** `lines_per_rank = total_lines // total_ranks`. */
  function LinesPerRank(total: nat, world: nat): nat
    requires world > 0
  {
    total / world
  }

  lemma {:induction false} SliceEndFits(total: nat, world: nat, rank: nat)
    requires world > 0 && rank < world
    ensures LinesPerRank(total, world) * (rank + 1) <= LinesPerRank(total, world) * world <= total
  {
    var lpr := LinesPerRank(total, world);
    MulMonotone(rank + 1, world, lpr);
    assert total == lpr * world + total % world;
  }

  /** `raw_data[start_line:end_line]` for rank `rank` of `world`. */
  function RankSlice<T>(lines: seq<T>, world: nat, rank: nat): (s: seq<T>)
    requires world > 0 && rank < world
    ensures |s| == LinesPerRank(|lines|, world)
  {
    var lpr := LinesPerRank(|lines|, world);
    SliceEndFits(|lines|, world, rank);
    lines[lpr * rank..lpr * rank + lpr]
  }

  /** The slices of ranks `0 .. m-1`, in rank order. */
  function ConcatRanks<T>(lines: seq<T>, world: nat, m: nat): seq<T>
    requires world > 0 && m <= world
  {
    if m == 0 then [] else ConcatRanks(lines, world, m - 1) + RankSlice(lines, world, m - 1)
  }

  /** The ranks' slices are contiguous and disjoint: laid end to end in
      rank order they spell out the first `lpr * m` lines. */
  lemma {:induction false} ConcatRanksIsPrefix<T>(lines: seq<T>, world: nat, m: nat)
    requires world > 0 && m <= world
    ensures LinesPerRank(|lines|, world) * m <= |lines|
    ensures ConcatRanks(lines, world, m) == lines[..LinesPerRank(|lines|, world) * m]
  {
    var lpr := LinesPerRank(|lines|, world);
    if m == 0 {
      assert lpr * m == 0;
    } else {
      ConcatRanksIsPrefix(lines, world, m - 1);
      SliceEndFits(|lines|, world, m - 1);
      assert lpr * m == lpr * (m - 1) + lpr;
      assert lines[..lpr * m] == lines[..lpr * (m - 1)] + lines[lpr * (m - 1)..lpr * m];
    }
  }

  /** `__len__`: the per-rank line count times the number of ranks. */
  function DatasetLen(total: nat, world: nat): (len: nat)
    requires world > 0
    ensures len + total % world == total
  {
    assert total == world * (total / world) + total % world;
    LinesPerRank(total, world) * world
  }


  /** All ranks together hold the first `__len__` lines; the last
      `total % world` lines belong to no rank, so `__len__ <= total`. */
  lemma {:induction false} AllRanksDropRemainder<T>(lines: seq<T>, world: nat)
    requires world > 0
    ensures DatasetLen(|lines|, world) <= |lines|
    ensures ConcatRanks(lines, world, world) == lines[..DatasetLen(|lines|, world)]
    ensures |lines| - DatasetLen(|lines|, world) == |lines| % world
  {
    ConcatRanksIsPrefix(lines, world, world);
    assert |lines| == LinesPerRank(|lines|, world) * world + |lines| % world;
  }

  // ---------------------------------------------------------------- __getitem__

  /** How `__getitem__` ends. */
  datatype Fetch =
    | Fetched(line: nat)        // the item built from line `line` of this rank
    | ZeroLength                // `i % len(self.raw_data)` with no lines
    | Unparseable(line: nat)    // `json.loads` raised inside the exception handler
    | HandlerRaised(line: nat)  // the handler's `data_item['image'].startswith` raised
    | GaveUp                    // the model's bound on the otherwise unbounded retry loop

  /** The collaborators of one attempt at line `k`: `parses(k)` says
      whether `json.loads` accepts it, `succeeds(k)` whether building the
      item from it returns, and `logs(k)` whether the handler's logging
      of a failure returns (it raises when the parsed value holds an
      `'image'` without `startswith`: a list, `null`, or a value that is
      not an object). */
  datatype Attempts = Attempts(parses: nat -> bool, succeeds: nat -> bool, logs: nat -> bool)

  /** The attempt at line `k` fails and the loop draws another line. */
  predicate Retries(c: Attempts, k: nat)
  {
    c.parses(k) && !c.succeeds(k) && c.logs(k)
  }

  /** How an attempt at line `k` that does not retry ends `__getitem__`. */
  function Stop(c: Attempts, k: nat): (r: Fetch)
    requires !Retries(c, k)
    ensures r == Fetched(k) <==> c.parses(k) && c.succeeds(k)
    ensures r == Unparseable(k) <==> !c.parses(k)
    ensures r == HandlerRaised(k) <==> c.parses(k) && !c.succeeds(k) && !c.logs(k)
  {
    if !c.parses(k) then Unparseable(k)
    else if c.succeeds(k) then Fetched(k)
    else HandlerRaised(k)
  }

  /** The retry loop from attempt `t` on, over the lines `lines` tried in
      turn: the first attempt that does not retry ends it. */
  function RetryFrom(c: Attempts, lines: seq<nat>, t: nat): (r: Fetch)
    requires t <= |lines|
    ensures !r.ZeroLength?
    ensures r.Fetched? ==> r.line in lines[t..] && c.parses(r.line) && c.succeeds(r.line)
    ensures r.Unparseable? ==> r.line in lines[t..] && !c.parses(r.line)
    ensures r.HandlerRaised? ==> r.line in lines[t..] && c.parses(r.line) && !c.succeeds(r.line) && !c.logs(r.line)
    decreases |lines| - t
  {
    if t == |lines| then GaveUp
    else if Retries(c, lines[t]) then RetryFrom(c, lines, t + 1)
    else Stop(c, lines[t])
  }

  /** Attempt `u` is the first from `t` on that does not retry. */
  predicate FirstStop(c: Attempts, lines: seq<nat>, t: nat, u: nat)
  {
    && t <= u < |lines| && !Retries(c, lines[u])
    && forall s :: t <= s < u ==> Retries(c, lines[s])
  }

  /** The retry loop ends at the first attempt that does not retry, and
      gives up exactly when every attempt retries. */
  lemma {:induction false} RetryFromExplained(c: Attempts, lines: seq<nat>, t: nat)
    requires t <= |lines|
    ensures RetryFrom(c, lines, t) == GaveUp <==> forall u :: t <= u < |lines| ==> Retries(c, lines[u])
    ensures forall u: nat :: FirstStop(c, lines, t, u) ==> RetryFrom(c, lines, t) == Stop(c, lines[u])
    ensures RetryFrom(c, lines, t) != GaveUp ==>
              exists u: nat :: FirstStop(c, lines, t, u) && RetryFrom(c, lines, t) == Stop(c, lines[u])
    decreases |lines| - t
  {
    if t < |lines| {
      RetryFromExplained(c, lines, t + 1);
      if Retries(c, lines[t]) {
        forall u: nat | FirstStop(c, lines, t, u) ensures FirstStop(c, lines, t + 1, u) {
          assert u != t;
        }
        if RetryFrom(c, lines, t) != GaveUp {
          var u: nat :| FirstStop(c, lines, t + 1, u) && RetryFrom(c, lines, t + 1) == Stop(c, lines[u]);
          assert FirstStop(c, lines, t, u);
        }
      } else {
        assert FirstStop(c, lines, t, t);
        forall u: nat | FirstStop(c, lines, t, u) ensures u == t {
        }
      }
    }
  }

  /** The lines `__getitem__` tries: `i % n` first, then the draws. */
  function AttemptLines(n: nat, i: int, picks: seq<nat>): (lines: seq<nat>)
    requires n > 0
    ensures |lines| == |picks| + 1 && lines[0] == i % n && lines[1..] == picks
  {
    [i % n] + picks
  }

  /** `__getitem__`: reduce `i` modulo the number of lines, then try lines
      until one yields an item; after a failure the next line is drawn by
      `random.randint(0, n - 1)`, here `picks[t]` for retry `t`. The loop
      leaves by an item, or by an exception the handler raises itself:
      the second `json.loads`, or the `startswith` of its logging. */
  method GetItem(n: nat, i: int, c: Attempts, picks: seq<nat>) returns (r: Fetch)
    requires forall t :: 0 <= t < |picks| ==> picks[t] < n
    ensures r == ZeroLength <==> n == 0
    ensures n > 0 ==> r == RetryFrom(c, AttemptLines(n, i, picks), 0)
    ensures r.Fetched? ==> r.line < n && c.parses(r.line) && c.succeeds(r.line)
    ensures r.Fetched? ==> r.line == i % n || r.line in picks
    ensures r.Unparseable? ==> r.line < n && !c.parses(r.line)
    ensures n > 0 && c.parses(i % n) && c.succeeds(i % n) ==> r == Fetched(i % n)
  {
    if n == 0 {
      return ZeroLength;
    }
    ghost var lines := AttemptLines(n, i, picks);
    var k: nat := i % n;
    var t := 0;
    while true
      invariant 0 <= t <= |picks| && k == lines[t]
      invariant k < n
      invariant k == i % n || k in picks
      invariant t == 0 ==> k == i % n
      invariant t > 0 ==> !(c.parses(i % n) && c.succeeds(i % n))
      invariant RetryFrom(c, lines, t) == RetryFrom(c, lines, 0)
      decreases |picks| - t
    {
      if !c.parses(k) {
        return Unparseable(k);
      }
      if c.succeeds(k) {
        return Fetched(k);
      }
      if !c.logs(k) {
        return HandlerRaised(k);
      }
      if t == |picks| {
        return GaveUp;
      }
      k := picks[t];
      t := t + 1;
    }
  }

  /** For every configuration: an item comes from the first attempt that
      does not retry, with every earlier attempt parsed and failed; so
      does an unparsable line or a raising handler; and `__getitem__`
      gives up exactly when every attempt parses, fails and is logged. */
  lemma {:induction false} GetItemExplained(n: nat, i: int, c: Attempts, picks: seq<nat>)
    requires n > 0
    ensures var lines := AttemptLines(n, i, picks);
            var r := RetryFrom(c, lines, 0);
            && (r == GaveUp <==> forall t :: 0 <= t < |lines| ==> Retries(c, lines[t]))
            && (r != GaveUp ==> exists t: nat :: FirstStop(c, lines, 0, t) && r == Stop(c, lines[t]))
  {
    RetryFromExplained(c, AttemptLines(n, i, picks), 0);
  }

  // ---------------------------------------------------------------- <image> prefix

  const ImagePrefix := ImageTag + "\n"

  datatype ItemError =
    | NoFirstTurn          // `data_item['conversations'][0]` on an empty list
    | ZeroDivision         // from `dynamic_preprocess`
    | PatchCountNotOne     // `assert num_patches == 1`

  /** The first turn's value after the rule of `multi_modal_get_item`. */
  function WithImageTag(value: string): (r: string)
  {
    if Occurs(value, ImageTag) then value else ImagePrefix + value
  }

  /** The result always mentions `<image>`, and equals its argument
      exactly when the argument already did. */
  lemma {:induction false} WithImageTagOccurs(value: string)
    ensures Occurs(WithImageTag(value), ImageTag)
    ensures WithImageTag(value) == value <==> Occurs(value, ImageTag)
  {
    var v := WithImageTag(value);
    if !Occurs(value, ImageTag) {
      assert MatchesAt(v, ImageTag, 0) by { assert v[..|ImageTag|] == ImageTag; }
      assert |v| > |value|;
    }
  }

  /** The rewritten conversation: the first turn's value gets the
      `<image>\n` prefix unless it already mentions `<image>`. */
  function PrefixFirstTurn(values: seq<string>): (r: Result<seq<string>, ItemError>)
    ensures r.Failure? <==> values == []
    ensures r.Success? ==> |r.value| == |values| && r.value[1..] == values[1..]
    ensures r.Success? ==> Occurs(r.value[0], ImageTag)
    ensures r.Success? ==> (r.value[0] == values[0] <==> Occurs(values[0], ImageTag))
  {
    if values == [] then Failure(NoFirstTurn)
    else
      WithImageTagOccurs(values[0]);
      Success([WithImageTag(values[0])] + values[1..])
  }

  /** Applying the rule twice is the same as applying it once. */
  lemma {:induction false} PrefixFirstTurnIdempotent(values: seq<string>)
    requires values != []
    ensures PrefixFirstTurn(PrefixFirstTurn(values).value) == PrefixFirstTurn(values)
  {
    var once := PrefixFirstTurn(values).value;
    WithImageTagOccurs(values[0]);
    assert [once[0]] + once[1..] == once;
  }

  // ---------------------------------------------------------------- patches

  /** The image side of a multi-modal item, its patch count, the flags
      and the image-token budget handed to the conversation preprocessing. */
  datatype PatchPlan = PatchPlan(numPatches: nat, imageFlags: seq<int>, tokenBudget: int)

  /** `multi_modal_get_item`: with dynamic tiling the image becomes the
      tiles of `dynamic_preprocess` (default bounds), otherwise it stays one
      patch; every patch is flagged 1, and the token budget is
      `num_image_token * num_patches`. */
  method MultiModalPatches(dynamic: bool, width: nat, height: nat, imageSize: nat, order: seq<Grid>,
                           useThumbnail: bool, numImageToken: nat)
    returns (r: Result<PatchPlan, ItemError>)
    requires Enumerates(order, CandidateSet(DefaultMinNum, DefaultMaxNum))
    ensures PositiveRows(order)
    ensures r.Failure? <==> dynamic && (height == 0 || imageSize == 0)
    ensures r.Success? && !dynamic ==> r.value.numPatches == 1
    ensures r.Success? && dynamic ==>
              r.value.numPatches == TileCount(ChooseGrid((width as real) / (height as real), order, width * height, imageSize), useThumbnail)
    ensures r.Success? ==> 1 <= r.value.numPatches <= DefaultMaxNum + 1
    ensures r.Success? ==> r.value.imageFlags == seq(r.value.numPatches, _ => 1)
    ensures r.Success? ==> r.value.tokenBudget == numImageToken * r.value.numPatches
  {
    CandidatesHavePositiveRows(order, DefaultMinNum, DefaultMaxNum);
    var numPatches: nat := 1;
    if dynamic {
      var tiles := DynamicPreprocess(width, height, imageSize, DefaultMinNum, DefaultMaxNum, order, useThumbnail);
      if tiles.Failure? {
        return Failure(ItemError.ZeroDivision);
      }
      numPatches := |tiles.value.tiles|;
      TileCountBounds((width as real) / (height as real), order, width * height, imageSize, useThumbnail);
    }
    return Success(PatchPlan(numPatches, seq(numPatches, _ => 1), numImageToken * numPatches));
  }

  /** With the default bounds a tiling yields between 1 and 7 images. */
  lemma {:induction false} TileCountBounds(aspect: real, order: seq<Grid>, area: int, imageSize: int, useThumbnail: bool)
    requires Enumerates(order, CandidateSet(DefaultMinNum, DefaultMaxNum)) && PositiveRows(order)
    ensures 1 <= TileCount(ChooseGrid(aspect, order, area, imageSize), useThumbnail) <= DefaultMaxNum + 1
  {
    var g := ChooseGrid(aspect, order, area, imageSize);
    ChooseGridIsCandidate(aspect, order, area, imageSize);
    CandidateSetExact(DefaultMinNum, DefaultMaxNum, g);
  }

  /** `pure_text_get_item`: a blank 224×224 image is tiled with the default
      bounds, and the item is built only if that gives exactly one patch,
      flagged 0. That happens exactly when the image size exceeds 224; with
      the default `force_image_size` of 224 the grid is `(2,2)` and the
      assertion fails. */
  method PureTextPatches(imageSize: nat, order: seq<Grid>, useThumbnail: bool, numImageToken: nat)
    returns (r: Result<PatchPlan, ItemError>)
    requires Enumerates(order, CandidateSet(DefaultMinNum, DefaultMaxNum))
    ensures r.Success? <==> imageSize > BlankSide
    ensures r.Success? ==> r.value == PatchPlan(1, [0], numImageToken)
    ensures imageSize == DefaultForceImageSize ==> r == Failure(PatchCountNotOne)
  {
    var tiles := DynamicPreprocess(BlankSide, BlankSide, imageSize, DefaultMinNum, DefaultMaxNum, order, useThumbnail);
    if tiles.Failure? {
      return Failure(ItemError.ZeroDivision);
    }
    SquareImageGridDefaults(BlankSide, order, imageSize);
    BlankBelowSquare(imageSize);
    var numPatches := |tiles.value.tiles|;
    if numPatches != 1 {
      return Failure(PatchCountNotOne);
    }
    return Success(PatchPlan(numPatches, seq(numPatches, _ => 0), numImageToken * numPatches));
  }

  lemma {:induction false} BlankBelowSquare(imageSize: nat)
    ensures BlankSide * BlankSide < imageSize * imageSize <==> imageSize > BlankSide
  {
    if imageSize > BlankSide {
      MulMonotone(BlankSide + 1, imageSize, imageSize);
      MulMonotone(BlankSide, imageSize, BlankSide + 1);
    } else {
      MulMonotone(imageSize, BlankSide, imageSize);
      MulMonotone(imageSize, BlankSide, BlankSide);
    }
  }
}
