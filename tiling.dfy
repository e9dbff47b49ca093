/** Dynamic tiling of `LazySupervisedDataset` (internvl_chat_pretrain.py):
    the candidate grids, the closest-aspect-ratio search with its two
    hard-coded overrides, and the crop boxes of `dynamic_preprocess`.
    Aspect ratios are exact rationals; the iteration order of the Python
    `set` of candidates is an arbitrary sequence `order` enumerating it. */
module Tiling {
  import opened Common

  /** A tiling `cols × rows` (`(i, j)` in the source). */
  datatype Grid = Grid(cols: int, rows: int)

  /** A crop box `(left, upper, right, lower)`. */
  datatype Box = Box(left: int, upper: int, right: int, lower: int)

  /** One image of the output of `dynamic_preprocess`. */
  datatype Tile = Crop(box: Box) | Thumbnail

  /** The grid chosen and the tiles cut for it. */
  datatype Tiles = Tiles(grid: Grid, tiles: seq<Tile>)

  datatype TileError = ZeroDivision

  /** Default `min_num` and `max_num` of `dynamic_preprocess`. */
  const DefaultMinNum := 1
  const DefaultMaxNum := 6

  /** The grids the generator yields for one value of `n`:
      `for i in range(1, n + 1) for j in range(1, n + 1) if minNum <= i*j <= maxNum`. */
  function CandidatesFor(n: int, minNum: int, maxNum: int): set<Grid>
  {
    set i: int, j: int | 1 <= i <= n && 1 <= j <= n && i * j <= maxNum && i * j >= minNum :: Grid(i, j)
  }

  /** The union over `n` in `range(minNum, m + 1)`. */
  function CandidatesUpTo(minNum: int, m: int, maxNum: int): set<Grid>
    decreases m - minNum
  {
    if m < minNum then {} else CandidatesUpTo(minNum, m - 1, maxNum) + CandidatesFor(m, minNum, maxNum)
  }

  /** The set comprehension of `dynamic_preprocess`. */
  function CandidateSet(minNum: int, maxNum: int): set<Grid>
  {
    CandidatesUpTo(minNum, maxNum, maxNum)
  }

  /** The union up to `m` holds exactly the grids with both sides in
      `[1, m]` whose area lies in `[minNum, maxNum]`, once `m` reaches `minNum`. */
  lemma {:induction false} CandidatesUpToExact(minNum: int, m: int, maxNum: int, g: Grid)
    ensures g in CandidatesUpTo(minNum, m, maxNum) <==>
              minNum <= m && 1 <= g.cols <= m && 1 <= g.rows <= m && minNum <= g.cols * g.rows <= maxNum
    decreases m - minNum
  {
    if m >= minNum {
      CandidatesUpToExact(minNum, m - 1, maxNum, g);
      if 1 <= g.cols <= m && 1 <= g.rows <= m && minNum <= g.cols * g.rows <= maxNum {
        assert g in CandidatesFor(m, minNum, maxNum);
      }
    }
  }

  /** The candidates are exactly the grids with both sides in
      `[1, maxNum]` whose area lies in `[minNum, maxNum]`: the outer loop
      over `n` adds nothing. */
  lemma {:induction false} CandidateSetExact(minNum: int, maxNum: int, g: Grid)
    ensures g in CandidateSet(minNum, maxNum) <==>
              1 <= g.cols <= maxNum && 1 <= g.rows <= maxNum && minNum <= g.cols * g.rows <= maxNum
  {
    CandidatesUpToExact(minNum, maxNum, maxNum, g);
  }

  /** `order` lists the set `s`, each element once. */
  predicate Enumerates(order: seq<Grid>, s: set<Grid>)
  {
    && (forall g :: g in s ==> g in order)
    && (forall k :: 0 <= k < |order| ==> order[k] in s)
    && (forall a, b :: 0 <= a < b < |order| ==> order[a] != order[b])
  }

  /** `abs(aspect_ratio - i / j)`. */
  function RatioDiff(aspect: real, g: Grid): real
    requires g.rows != 0
  {
    var d := aspect - (g.cols as real) / (g.rows as real);
    if d < 0.0 then -d else d
  }

  predicate PositiveRows(order: seq<Grid>)
  {
    forall k :: 0 <= k < |order| ==> order[k].rows > 0
  }

  /** Reference for the search loop: the position of the EARLIEST candidate
      with the least difference, or `None` when there is no candidate. */
  function ClosestIndex(aspect: real, order: seq<Grid>): (r: Option<nat>)
    requires PositiveRows(order)
    ensures r.None? <==> order == []
    ensures r.Some? ==> r.value < |order|
    ensures r.Some? ==> forall k :: 0 <= k < |order| ==> RatioDiff(aspect, order[r.value]) <= RatioDiff(aspect, order[k])
    ensures r.Some? ==> forall k :: 0 <= k < r.value ==> RatioDiff(aspect, order[r.value]) < RatioDiff(aspect, order[k])
  {
    if order == [] then None
    else
      var prev := ClosestIndex(aspect, order[..|order| - 1]);
      var last := |order| - 1;
      if prev.None? || RatioDiff(aspect, order[last]) < RatioDiff(aspect, order[prev.value]) then Some(last)
      else prev
  }

  /** Extending the searched prefix by candidate `k` moves the answer to
      `k` exactly when `k` is strictly closer. */
  lemma {:induction false} ClosestIndexStep(aspect: real, order: seq<Grid>, k: nat)
    requires PositiveRows(order) && k < |order|
    ensures var prev := ClosestIndex(aspect, order[..k]);
            ClosestIndex(aspect, order[..k + 1])
            == if prev.None? || RatioDiff(aspect, order[k]) < RatioDiff(aspect, order[prev.value]) then Some(k) else prev
  {
    assert order[..k + 1][..k] == order[..k];
  }

  /** The two hard-coded overrides: `(2,3)`/`(3,2)` become `(2,2)` for an
      area under `4s²`, then `(1,1)` and `(2,2)` are decided by the area
      alone. */
  function Override(best: Grid, area: int, imageSize: int): (g: Grid)
    ensures (best == Grid(1, 1) || best == Grid(2, 2)) ==>
              g == (if area < imageSize * imageSize then Grid(1, 1) else Grid(2, 2))
    ensures (best == Grid(2, 3) || best == Grid(3, 2)) && area < 4 * imageSize * imageSize ==>
              g == (if area < imageSize * imageSize then Grid(1, 1) else Grid(2, 2))
    ensures best !in {Grid(1, 1), Grid(2, 2), Grid(2, 3), Grid(3, 2)} ==> g == best
    ensures (best == Grid(2, 3) || best == Grid(3, 2)) && area >= 4 * imageSize * imageSize ==> g == best
  {
    var b := if (best == Grid(2, 3) || best == Grid(3, 2)) && area < imageSize * imageSize * 4 then Grid(2, 2) else best;
    if b == Grid(1, 1) || b == Grid(2, 2) then
      (if area < imageSize * imageSize then Grid(1, 1) else Grid(2, 2))
    else b
  }

  /** What `find_closest_aspect_ratio` returns. */
  function ChooseGrid(aspect: real, order: seq<Grid>, area: int, imageSize: int): Grid
    requires PositiveRows(order)
  {
    var idx := ClosestIndex(aspect, order);
    Override(if idx.Some? then order[idx.value] else Grid(1, 1), area, imageSize)
  }

  /** `find_closest_aspect_ratio`: the search loop, then the two
      hard-coded overrides. */
  method FindClosestAspectRatio(aspect: real, order: seq<Grid>, width: int, height: int, imageSize: int)
    returns (best: Grid)
    requires PositiveRows(order)
    ensures best == ChooseGrid(aspect, order, width * height, imageSize)
  {
    best := ClosestCandidate(aspect, order);
    var area := width * height;
    if best == Grid(2, 3) || best == Grid(3, 2) {
      var newArea := imageSize * imageSize * 4;
      if area < newArea {
        best := Grid(2, 2);
      }
    }
    if best == Grid(1, 1) || best == Grid(2, 2) {
      if area < imageSize * imageSize {
        best := Grid(1, 1);
      } else {
        best := Grid(2, 2);
      }
    }
  }

  /** The search loop of `find_closest_aspect_ratio`: the strict `<`
      keeps the first of equally close candidates; `(1, 1)` stands when
      there are none. */
  method ClosestCandidate(aspect: real, order: seq<Grid>) returns (best: Grid)
    requires PositiveRows(order)
    ensures best == if ClosestIndex(aspect, order).Some? then order[ClosestIndex(aspect, order).value] else Grid(1, 1)
  {
    var found := false;
    var bestDiff := 0.0;
    best := Grid(1, 1);
    for k := 0 to |order|
      invariant found <==> k > 0
      invariant found ==> ClosestIndex(aspect, order[..k]).Some?
                          && best == order[ClosestIndex(aspect, order[..k]).value]
                          && bestDiff == RatioDiff(aspect, best)
      invariant !found ==> best == Grid(1, 1)
    {
      ClosestIndexStep(aspect, order, k);
      var diff := RatioDiff(aspect, order[k]);
      if !found || diff < bestDiff {
        found := true;
        bestDiff := diff;
        best := order[k];
      }
    }
    assert order[..|order|] == order;
  }

  /** With the default bounds the answer is always a candidate grid (the
      overrides only produce `(1,1)` and `(2,2)`, both candidates). */
  lemma {:induction false} ChooseGridIsCandidate(aspect: real, order: seq<Grid>, area: int, imageSize: int)
    requires Enumerates(order, CandidateSet(DefaultMinNum, DefaultMaxNum))
    requires PositiveRows(order)
    ensures ChooseGrid(aspect, order, area, imageSize) in CandidateSet(DefaultMinNum, DefaultMaxNum)
  {
    CandidateSetExact(DefaultMinNum, DefaultMaxNum, Grid(1, 1));
    CandidateSetExact(DefaultMinNum, DefaultMaxNum, Grid(2, 2));
    var idx := ClosestIndex(aspect, order);
    if idx.Some? {
      assert order[idx.value] in CandidateSet(DefaultMinNum, DefaultMaxNum);
    }
  }

  /** Every candidate set has positive sides. */
  lemma {:induction false} CandidatesHavePositiveRows(order: seq<Grid>, minNum: int, maxNum: int)
    requires Enumerates(order, CandidateSet(minNum, maxNum))
    ensures PositiveRows(order)
  {
    forall k | 0 <= k < |order| ensures order[k].rows > 0 {
      assert order[k] in CandidateSet(minNum, maxNum);
      CandidateSetExact(minNum, maxNum, order[k]);
    }
  }

  /** For a square image, whatever the iteration order, the answer is
      `(1,1)` when the area is below `s²` and `(2,2)` otherwise, for any
      bounds that admit `(1,1)` and no larger square (the defaults 1 and 6
      do): the closest candidates are the square grids, and the override
      then decides by area alone. */
  lemma {:induction false} SquareImageGrid(side: nat, order: seq<Grid>, imageSize: int, minNum: int, maxNum: int)
    requires side > 0
    requires minNum <= 1 <= maxNum < 9
    requires Enumerates(order, CandidateSet(minNum, maxNum))
    ensures PositiveRows(order)
    ensures ChooseGrid((side as real) / (side as real), order, side * side, imageSize)
            == if side * side < imageSize * imageSize then Grid(1, 1) else Grid(2, 2)
  {
    CandidatesHavePositiveRows(order, minNum, maxNum);
    SelfRatio(side);
    ClosestToSquare(order, minNum, maxNum);
  }

  /** For a square image the closest candidate is `(1,1)` or `(2,2)`:
      only square grids have ratio difference zero, and those two are the
      only square candidates. */
  lemma {:induction false} ClosestToSquare(order: seq<Grid>, minNum: int, maxNum: int)
    requires minNum <= 1 <= maxNum < 9
    requires Enumerates(order, CandidateSet(minNum, maxNum)) && PositiveRows(order)
    ensures ClosestIndex(1.0, order).Some?
    ensures var g := order[ClosestIndex(1.0, order).value]; g == Grid(1, 1) || g == Grid(2, 2)
  {
    CandidateSetExact(minNum, maxNum, Grid(1, 1));
    assert Grid(1, 1) in order;
    var one :| 0 <= one < |order| && order[one] == Grid(1, 1);
    var idx := ClosestIndex(1.0, order).value;
    var g := order[idx];
    assert RatioDiff(1.0, g) <= RatioDiff(1.0, order[one]);
    UnitRatioIsSquare(g);
    assert g in CandidateSet(minNum, maxNum);
    CandidateSetExact(minNum, maxNum, g);
    SquareGridsBelowNine(g);
  }

  /** The default bounds `1` and `6` are such bounds. */
  lemma {:induction false} SquareImageGridDefaults(side: nat, order: seq<Grid>, imageSize: int)
    requires side > 0
    requires Enumerates(order, CandidateSet(DefaultMinNum, DefaultMaxNum))
    ensures PositiveRows(order)
    ensures ChooseGrid((side as real) / (side as real), order, side * side, imageSize)
            == if side * side < imageSize * imageSize then Grid(1, 1) else Grid(2, 2)
  {
    SquareImageGrid(side, order, imageSize, DefaultMinNum, DefaultMaxNum);
  }

  lemma {:induction false} SelfRatio(side: nat)
    requires side > 0
    ensures (side as real) / (side as real) == 1.0
  {
  }

  /** A grid no farther from ratio 1 than `(1,1)` is square. */
  lemma {:induction false} UnitRatioIsSquare(g: Grid)
    requires g.rows > 0 && RatioDiff(1.0, g) <= RatioDiff(1.0, Grid(1, 1))
    ensures g.cols == g.rows
  {
    assert RatioDiff(1.0, Grid(1, 1)) == 0.0;
    var q := (g.cols as real) / (g.rows as real);
    assert q == 1.0;
    assert q * (g.rows as real) == g.cols as real;
  }

  lemma {:induction false} SquareGridsBelowNine(g: Grid)
    requires 1 <= g.cols == g.rows && g.cols * g.rows < 9
    ensures g == Grid(1, 1) || g == Grid(2, 2)
  {
    if g.cols >= 3 {
      MulMonotone(3, g.cols, g.rows);
    }
  }

  // ---------------------------------------------------------------- crop boxes

  /** The crop box of tile `k` in a grid `cols` wide with tile side `s`:
      column `k % cols`, row `k / cols`. */
  function BoxAt(k: int, cols: int, s: int): Box
    requires cols > 0
  {
    Box((k % cols) * s, (k / cols) * s, (k % cols + 1) * s, (k / cols + 1) * s)
  }

  /** Each box is an `s × s` square inside the resized `cols*s × rows*s` image. */
  lemma {:induction false} BoxInside(k: nat, cols: nat, rows: nat, s: nat)
    requires cols > 0 && k < cols * rows
    ensures BoxAt(k, cols, s).right - BoxAt(k, cols, s).left == s
    ensures BoxAt(k, cols, s).lower - BoxAt(k, cols, s).upper == s
    ensures 0 <= BoxAt(k, cols, s).left && BoxAt(k, cols, s).right <= cols * s
    ensures 0 <= BoxAt(k, cols, s).upper && BoxAt(k, cols, s).lower <= rows * s
  {
    var c, r := k % cols, k / cols;
    RowInRange(k, cols, rows);
    SideWithin(c, cols, s);
    SideWithin(r, rows, s);
  }

  /** Tile `k < cols*rows` lies in row `k / cols < rows`. */
  lemma {:induction false} RowInRange(k: nat, cols: nat, rows: nat)
    requires cols > 0 && k < cols * rows
    ensures k / cols < rows
  {
    var r := k / cols;
    assert k == r * cols + k % cols;
    if r >= rows {
      MulMonotone(rows, r, cols);
    }
  }

  /** Cell `i` of `n` cells of side `s` spans `[i*s, (i+1)*s)` within `[0, n*s]`. */
  lemma {:induction false} SideWithin(i: nat, n: nat, s: nat)
    requires i < n
    ensures 0 <= i * s && (i + 1) * s <= n * s && (i + 1) * s - i * s == s
  {
    MulMonotone(i + 1, n, s);
    MulMonotone(0, i, s);
  }

  /** Distinct tiles have interior-disjoint boxes: they differ in column
      or in row, and cells in different columns (rows) do not overlap. */
  lemma {:induction false} BoxesDisjoint(k1: nat, k2: nat, cols: nat, s: nat)
    requires cols > 0 && s > 0 && k1 != k2
    ensures var b1, b2 := BoxAt(k1, cols, s), BoxAt(k2, cols, s);
            b1.right <= b2.left || b2.right <= b1.left || b1.lower <= b2.upper || b2.lower <= b1.upper
  {
    var c1, r1, c2, r2 := k1 % cols, k1 / cols, k2 % cols, k2 / cols;
    assert k1 == r1 * cols + c1 && k2 == r2 * cols + c2;
    if c1 < c2 {
      MulMonotone(c1 + 1, c2, s);
    } else if c2 < c1 {
      MulMonotone(c2 + 1, c1, s);
    } else if r1 < r2 {
      MulMonotone(r1 + 1, r2, s);
    } else {
      assert r1 != r2;
      MulMonotone(r2 + 1, r1, s);
    }
  }

  /** The boxes cover the resized image: every point lies in the box of
      the tile numbered row-major from its cell. */
  lemma {:induction false} BoxesCover(x: nat, y: nat, cols: nat, rows: nat, s: nat)
    requires cols > 0 && s > 0 && x < cols * s && y < rows * s
    ensures var k := (y / s) * cols + x / s;
            k < cols * rows && InBox(BoxAt(k, cols, s), x, y)
  {
    CoverIndex(x, y, cols, rows, s);
    CellBounds(x, s, cols);
    CoverPoint(x, y, cols, s);
  }

  predicate InBox(b: Box, x: int, y: int)
  {
    b.left <= x < b.right && b.upper <= y < b.lower
  }

  lemma {:induction false} CoverIndex(x: nat, y: nat, cols: nat, rows: nat, s: nat)
    requires cols > 0 && s > 0 && x < cols * s && y < rows * s
    ensures (y / s) * cols + x / s < cols * rows
  {
    var c, r := x / s, y / s;
    CellBounds(x, s, cols);
    CellBounds(y, s, rows);
    CellIndexInRange(r, c, cols, rows);
  }

  lemma {:induction false} CoverPoint(x: nat, y: nat, cols: nat, s: nat)
    requires cols > 0 && s > 0 && x / s < cols
    ensures InBox(BoxAt((y / s) * cols + x / s, cols, s), x, y)
  {
    var c, r := x / s, y / s;
    CellOf(x, s);
    CellOf(y, s);
    InBoxOfCell(r, c, cols, s, x, y);
  }

  lemma {:induction false} CellOf(x: nat, s: nat)
    requires s > 0
    ensures (x / s) * s <= x < (x / s + 1) * s
  {
    assert x == (x / s) * s + x % s;
    assert (x / s + 1) * s == (x / s) * s + s;
  }

  lemma {:induction false} InBoxOfCell(r: nat, c: nat, cols: nat, s: nat, x: int, y: int)
    requires c < cols && c * s <= x < (c + 1) * s && r * s <= y < (r + 1) * s
    ensures InBox(BoxAt(r * cols + c, cols, s), x, y)
  {
    BoxOfCell(r, c, cols, s);
  }

  /** Tile `r*cols + c` is the cell in column `c` and row `r`. */
  lemma {:induction false} BoxOfCell(r: nat, c: nat, cols: nat, s: nat)
    requires c < cols
    ensures BoxAt(r * cols + c, cols, s) == Box(c * s, r * s, (c + 1) * s, (r + 1) * s)
  {
    DivModUnique(r * cols + c, cols, r, c);
  }

  lemma {:induction false} CellIndexInRange(r: nat, c: nat, cols: nat, rows: nat)
    requires r < rows && c < cols
    ensures r * cols + c < cols * rows
  {
    MulMonotone(r + 1, rows, cols);
    assert (r + 1) * cols == r * cols + cols;
    assert rows * cols == cols * rows;
  }

  /** The cell of coordinate `x` along a side of `n` cells of size `s`. */
  lemma {:induction false} CellBounds(x: nat, s: nat, n: nat)
    requires s > 0 && x < n * s
    ensures x / s < n && (x / s) * s <= x < (x / s + 1) * s
  {
    var c := x / s;
    assert x == c * s + x % s;
    assert (c + 1) * s == c * s + s;
    if c >= n {
      MulMonotone(n, c, s);
    }
  }

  /** How many images `dynamic_preprocess` returns for a grid. */
  function TileCount(g: Grid, useThumbnail: bool): int
  {
    g.cols * g.rows + (if useThumbnail && g.cols * g.rows != 1 then 1 else 0)
  }

  /** `dynamic_preprocess` on an image of `width × height`: choose the
      grid, cut `cols*rows` boxes in row-major order from the image resized
      to `cols*s × rows*s`, then append the thumbnail when asked to and
      there is more than one box. */
  method DynamicPreprocess(width: nat, height: nat, imageSize: nat, minNum: int, maxNum: int,
                           order: seq<Grid>, useThumbnail: bool)
    returns (r: Result<Tiles, TileError>)
    requires Enumerates(order, CandidateSet(minNum, maxNum))
    ensures PositiveRows(order)
    ensures r.Success? <==> height > 0 && imageSize > 0
    ensures r.Success? ==>
              r.value.grid == ChooseGrid((width as real) / (height as real), order, width * height, imageSize)
    ensures r.Success? ==> r.value.grid.cols >= 1 && r.value.grid.rows >= 1
    ensures r.Success? ==>
              var g := r.value.grid;
              && |r.value.tiles| == TileCount(g, useThumbnail)
              && (forall k :: 0 <= k < g.cols * g.rows ==> r.value.tiles[k] == Crop(BoxAt(k, g.cols, imageSize)))
              && (TileCount(g, useThumbnail) > g.cols * g.rows ==> |r.value.tiles| > 0 && r.value.tiles[|r.value.tiles| - 1] == Thumbnail)
  {
    CandidatesHavePositiveRows(order, minNum, maxNum);
    if height == 0 {
      return Failure(ZeroDivision);
    }
    var aspect := (width as real) / (height as real);
    var g := FindClosestAspectRatio(aspect, order, width, height, imageSize);
    assert g.cols >= 1 && g.rows >= 1 by { GridPositive(aspect, order, width * height, imageSize, minNum, maxNum); }
    if imageSize == 0 {
      return Failure(ZeroDivision);
    }
    var tiles := GridTiles(g, imageSize, useThumbnail);
    return Success(Tiles(g, tiles));
  }

  /** The tiles of `dynamic_preprocess` once the grid is chosen: the
      `cols*rows` crops, then the thumbnail when asked for and there is
      more than one crop. */
  method GridTiles(g: Grid, imageSize: nat, useThumbnail: bool) returns (tiles: seq<Tile>)
    requires g.cols >= 1 && g.rows >= 1 && imageSize > 0
    ensures |tiles| == TileCount(g, useThumbnail)
    ensures forall k :: 0 <= k < g.cols * g.rows ==> tiles[k] == Crop(BoxAt(k, g.cols, imageSize))
    ensures TileCount(g, useThumbnail) > g.cols * g.rows ==> |tiles| > 0 && tiles[|tiles| - 1] == Thumbnail
  {
    var targetWidth := imageSize * g.cols;
    var blocks := g.cols * g.rows;
    assert targetWidth / imageSize == g.cols by { DivModUnique(targetWidth, imageSize, g.cols, 0); }
    tiles := CutBoxes(targetWidth, imageSize, blocks);
    if useThumbnail && |tiles| != 1 {
      tiles := tiles + [Thumbnail];
    }
  }

  /** The crop loop of `dynamic_preprocess`: `blocks` boxes, row-major
      in a grid `target_width // s` wide. */
  method CutBoxes(targetWidth: nat, imageSize: nat, blocks: nat) returns (tiles: seq<Tile>)
    requires imageSize > 0 && targetWidth / imageSize > 0
    ensures |tiles| == blocks
    ensures forall k :: 0 <= k < blocks ==> tiles[k] == Crop(BoxAt(k, targetWidth / imageSize, imageSize))
  {
    tiles := [];
    for k := 0 to blocks
      invariant |tiles| == k
      invariant forall j :: 0 <= j < k ==> tiles[j] == Crop(BoxAt(j, targetWidth / imageSize, imageSize))
    {
      var box := Box((k % (targetWidth / imageSize)) * imageSize, (k / (targetWidth / imageSize)) * imageSize,
                     (k % (targetWidth / imageSize) + 1) * imageSize, (k / (targetWidth / imageSize) + 1) * imageSize);
      tiles := tiles + [Crop(box)];
    }
  }

  /** Every grid the search can return has positive sides. */
  lemma {:induction false} GridPositive(aspect: real, order: seq<Grid>, area: int, imageSize: int, minNum: int, maxNum: int)
    requires Enumerates(order, CandidateSet(minNum, maxNum)) && PositiveRows(order)
    ensures ChooseGrid(aspect, order, area, imageSize).cols >= 1
    ensures ChooseGrid(aspect, order, area, imageSize).rows >= 1
  {
    var idx := ClosestIndex(aspect, order);
    if idx.Some? {
      assert order[idx.value] in CandidateSet(minNum, maxNum);
      CandidateSetExact(minNum, maxNum, order[idx.value]);
    }
  }
}
