/**
 * The trial placement of `simulate` (src/board.rs:109-158, 161-290): the
 * piece is written into copies `temp_grid`/`temp_heights` of the board,
 * full rows are cleared by moving the rows beneath them UP, and the
 * integer features are measured on the result. The copies are Rust array
 * values, so they are sequence values here.
 */
module Trial {
  import opened Wrappers
  import opened Grid
  import opened Pieces
  import opened Features

  /**
   * What `simulate` returns for a legal placement on grid `g`, when the
   * board's heights are those of `g`: the number of full rows, and the
   * features of the grid after `simulate`'s clear.
   */
  function Outcome(g: seq<seq<bool>>, p: Shape, x: int): (r: (int, Features))
    requires IsGrid(g) && p.Valid() && 0 <= x && Legal(g, HeightsOf(g), p, x)
  {
    var hs := HeightsOf(g);
    var ry := RestingRow(hs, p, x);
    var bs := (BlocksOnBoard(g, p, x, ry); Blocks(p, x, ry));
    var placed := Placed(g, hs, p, x);
    var full := FullMask(placed);
    var cleared := CountTrue(full);
    var after := (ClearedIsGrid(placed, full, BlankRow()); ClearUp(placed, full, BlankRow()));
    var hsAfter := HeightsOf(after);
    (cleared, Features(
      HighestRow(bs),
      ErodedCount(bs, full) * cleared,
      RowTransitions(after),
      ColumnTransitions(after),
      Holes(after),
      Wells(hsAfter),
      HoleDepth(after, hsAfter),
      RowsWithHoles(after, hsAfter),
      Diversity(hsAfter),
      HeightSum(hsAfter)))
  }

  /** The grid `simulate` measures: the placed piece, after its clear. */
  function Trialled(g: seq<seq<bool>>, p: Shape, x: int): (r: seq<seq<bool>>)
    requires IsGrid(g) && p.Valid() && 0 <= x && Legal(g, HeightsOf(g), p, x)
    ensures IsGrid(r)
  {
    var placed := Placed(g, HeightsOf(g), p, x);
    ClearedIsGrid(placed, FullMask(placed), BlankRow());
    ClearUp(placed, FullMask(placed), BlankRow())
  }

  /**
   * On a board without full rows (the board invariant), `simulate` clears
   * at most as many rows as the piece is tall, and so at most four.
   */
  lemma OutcomeCleared(g: seq<seq<bool>>, p: Shape, x: int)
    requires IsGrid(g) && p.Valid() && 0 <= x && Legal(g, HeightsOf(g), p, x) && NoFullRow(g)
    ensures Outcome(g, p, x).0 == FullCount(Placed(g, HeightsOf(g), p, x)) <= p.height <= 4
  {
    AtMostFourCleared(g, HeightsOf(g), p, x);
  }

  /**
   * The landing height is the row of the piece's highest block, which lies
   * at or above the resting row, and the eroded-cell count is at most the
   * piece's blocks times the rows cleared.
   */
  lemma OutcomeLanding(g: seq<seq<bool>>, p: Shape, x: int)
    requires IsGrid(g) && p.Valid() && 0 <= x && Legal(g, HeightsOf(g), p, x)
    ensures var ry := RestingRow(HeightsOf(g), p, x);
      var (cleared, f) := Outcome(g, p, x);
      && (Blocks(p, x, ry) != [] ==> ry <= f.landingHeight < ry + p.height)
      && 0 <= f.erodedCells <= |Blocks(p, x, ry)| * cleared
  {
    var hs := HeightsOf(g);
    var ry := RestingRow(hs, p, x);
    RestingRowIsLowest(hs, p, x);
    BlocksOnBoard(g, p, x, ry);
    var bs := Blocks(p, x, ry);
    LandingAtLeastResting(p, x, ry);
    var full := FullMask(Placed(g, hs, p, x));
    ScaleBound(ErodedCount(bs, full), |bs|, CountTrue(full));
    assert Outcome(g, p, x).1.erodedCells == ErodedCount(bs, full) * CountTrue(full);
  }

  /** Blocks lie in the piece's rows above the resting row, and so does the highest of them. */
  lemma LandingAtLeastResting(p: Shape, x: int, ry: int)
    requires p.Valid() && ry >= 0
    ensures var bs := Blocks(p, x, ry);
      && (forall k :: 0 <= k < |bs| ==> bs[k].y >= 0)
      && (bs != [] ==> ry <= HighestRow(bs) < ry + p.height)
  {
    BlocksUpToOrder(p, x, ry, p.height);
  }

  lemma ScaleBound(a: nat, b: nat, c: nat)
    requires a <= b
    ensures 0 <= a * c <= b * c
  {
  }

  // ------------------------------------------------------------ the steps

  /**
   * The trial placement on the copies: write the blocks, find the full
   * rows and, when there are any, clear them upward and recompute the
   * heights.
   */
  method PlaceAndClearCopy(g: seq<seq<bool>>, hs: seq<int>, bs: seq<Cell>)
      returns (after: seq<seq<bool>>, hsAfter: seq<int>, fullRows: seq<int>)
    requires IsGrid(g) && |hs| == W && AllOnBoard(bs)
    requires HeightsOf(PlaceAll(g, bs)) == RaiseAll(hs, bs)
    ensures fullRows == FullRows(PlaceAll(g, bs))
    ensures after == ClearUp(PlaceAll(g, bs), FullMask(PlaceAll(g, bs)), BlankRow()) && IsGrid(after)
    ensures hsAfter == HeightsOf(after)
  {
    var placed, raised := PlaceOnCopy(g, hs, bs);
    ClearedIsGrid(placed, FullMask(placed), BlankRow());
    fullRows := FindFullRows(placed);
    FullRowsFacts(placed);
    if |fullRows| > 0 {
      after := ClearRowsUp(placed, fullRows);
      hsAfter := RecomputeHeights(after);
    } else {
      KeepNone(placed, FullMask(placed), BlankRow());
      after, hsAfter := placed, raised;
    }
  }

  /** The feature computations of `simulate`, on the cleared copy. */
  method Measure(bs: seq<Cell>, fullRows: seq<int>, ghost full: seq<bool>, after: seq<seq<bool>>, hsAfter: seq<int>)
      returns (f: Features)
    requires IsGrid(after) && hsAfter == HeightsOf(after)
    requires forall k :: 0 <= k < |bs| ==> 0 <= bs[k].y < |full|
    requires forall y :: 0 <= y < |full| ==> (y in fullRows <==> full[y])
    ensures f == Features(
      HighestRow(bs), ErodedCount(bs, full) * |fullRows|,
      RowTransitions(after), ColumnTransitions(after), Holes(after),
      Wells(hsAfter), HoleDepth(after, hsAfter), RowsWithHoles(after, hsAfter), Diversity(hsAfter),
      HeightSum(hsAfter))
  {
    var landing := FindLandingHeight(bs);
    var eroded := CountEroded(bs, fullRows, |fullRows|, full);
    var rowTrans := CountRowTransitions(after);
    var colTrans := CountColumnTransitions(after);
    var holes := CountHoles(after);
    var wells := SumWells(hsAfter);
    var holeDepth := SumHoleDepth(after, hsAfter);
    var rowsWithHoles := CountRowsWithHoles(after, hsAfter);
    var diversity := SumDiversity(hsAfter);
    var heightSum := SumHeights(hsAfter);
    f := Features(landing, eroded, rowTrans, colTrans, holes, wells, holeDepth, rowsWithHoles, diversity, heightSum);
  }

  /** The placement loop over `blocks`, on the copies. */
  method PlaceOnCopy(g: seq<seq<bool>>, hs: seq<int>, blocks: seq<Cell>) returns (g': seq<seq<bool>>, hs': seq<int>)
    requires IsGrid(g) && |hs| == W && AllOnBoard(blocks)
    ensures g' == PlaceAll(g, blocks) && hs' == RaiseAll(hs, blocks)
  {
    g', hs' := g, hs;
    for k := 0 to |blocks|
      invariant g' == PlaceAll(g, blocks[..k]) && hs' == RaiseAll(hs, blocks[..k])
    {
      var b := blocks[k];
      assert blocks[..k + 1][..k] == blocks[..k];
      g' := g'[b.y := g'[b.y][b.x := true]];
      hs' := hs'[b.x := if hs'[b.x] < b.y + 1 then b.y + 1 else hs'[b.x]];
    }
    assert blocks[..|blocks|] == blocks;
  }

  /** The `full_rows` scan: the full rows of `g`, ascending. */
  method FindFullRows(g: seq<seq<bool>>) returns (fullRows: seq<int>)
    requires IsGrid(g)
    ensures fullRows == FullRows(g)
  {
    fullRows := [];
    for y := 0 to H
      invariant fullRows == FullRowsBelow(g, y)
    {
      var all := true;
      var x := 0;
      while x < W
        invariant 0 <= x <= W && all && forall x' :: 0 <= x' < x ==> g[y][x']
      {
        if !g[y][x] {
          all := false;
          break;
        }
        x := x + 1;
      }
      if all {
        fullRows := fullRows + [y];
      }
    }
  }

  /**
   * `simulate`'s clear: walking from the top row down, a full row bumps
   * `shift`, and any other row `y` is copied to row `y + shift` of a blank
   * grid.
   */
  method ClearRowsUp(g: seq<seq<bool>>, fullRows: seq<int>) returns (cleared: seq<seq<bool>>)
    requires IsGrid(g) && fullRows == FullRows(g)
    ensures cleared == ClearUp(g, FullMask(g), BlankRow())
  {
    ghost var m := FullMask(g);
    var len := |fullRows|;
    cleared := Fill(H, BlankRow());
    var shift := 0;
    ghost var n := H;
    assert m[H..] == [] && g[H..] == [];
    assert cleared == Fill(n, BlankRow()) + Keep(g[H..], m[H..]);
    assert SplitAt(fullRows, len, H) by {
      FullRowsFacts(g);
    }
    var y := H;
    while y > 0
      invariant 0 <= y <= H && 0 <= shift <= len && n == y + shift
      invariant shift == CountTrue(m[y..])
      invariant SplitAt(fullRows, len - shift, y)
      invariant cleared == Fill(n, BlankRow()) + Keep(g[y..], m[y..])
    {
      ghost var above := y;
      y := y - 1;
      FullRowsStep(g, fullRows, shift, y, above);
      if shift < len && y == fullRows[len - 1 - shift] {
        ClearUpSkip(g, m, BlankRow(), y, above, shift, n, cleared);
        shift := shift + 1;
        continue;
      }
      var newY := y + shift;
      ClearUpCopy(g, m, BlankRow(), y, above, shift, n, newY, cleared);
      n := newY;
      if newY < H {
        cleared := cleared[newY := g[y]];
      }
    }
    ClearUpDone(g, shift, cleared);
  }

  lemma ClearUpDone(g: seq<seq<bool>>, shift: int, cleared: seq<seq<bool>>)
    requires IsGrid(g)
    requires var m := FullMask(g);
      shift == CountTrue(m[0..]) && cleared == Fill(shift, BlankRow()) + Keep(g[0..], m[0..])
    ensures cleared == ClearUp(g, FullMask(g), BlankRow())
  {
    assert g[0..] == g && FullMask(g)[0..] == FullMask(g);
  }

  /** The first `k` entries of `rows` lie below row `y`, the others at or above it. */
  predicate SplitAt(rows: seq<int>, k: int, y: int)
  {
    && 0 <= k <= |rows|
    && (forall i :: 0 <= i < k ==> rows[i] < y)
    && (forall i :: k <= i < |rows| ==> rows[i] >= y)
  }

  /**
   * Walking down from the top with `shift` full rows passed, row `y` is full
   * exactly when it is the next entry of `full_rows` from the end.
   */
  lemma FullRowsStep(g: seq<seq<bool>>, fullRows: seq<int>, shift: int, y: int, above: int)
    requires IsGrid(g) && fullRows == FullRows(g) && 0 <= y < H && above == y + 1
    requires 0 <= shift <= |fullRows| && SplitAt(fullRows, |fullRows| - shift, above)
    ensures var len := |fullRows|;
      && ((shift < len && y == fullRows[len - 1 - shift]) <==> FullMask(g)[y])
      && (FullMask(g)[y] ==> SplitAt(fullRows, len - (shift + 1), y))
      && (!FullMask(g)[y] ==> SplitAt(fullRows, len - shift, y))
  {
    var len := |fullRows|;
    FullRowsFacts(g);
    if IsFull(g[y]) {
      assert y in fullRows;
      var i :| 0 <= i < len && fullRows[i] == y;
      assert i < len - shift;
      assert fullRows[len - 1 - shift] < y + 1;
    }
    if shift < len && y == fullRows[len - 1 - shift] {
      assert fullRows[len - 1 - shift] in fullRows;
    }
  }

  /**
   * One row of `simulate`'s clear, processed from the top: `cleared` holds
   * `n` blank rows and then the survivors among the rows above `y`. A full
   * row `y` is skipped ...
   */
  lemma ClearUpSkip<T>(rows: seq<T>, m: seq<bool>, blank: T, y: int, above: int, shift: int, n: int, cleared: seq<T>)
    requires |rows| == |m| && 0 <= y < |rows| && above == y + 1 && m[y]
    requires shift == CountTrue(m[above..]) && n == above + shift
    requires cleared == Fill(n, blank) + Keep(rows[above..], m[above..])
    ensures CountTrue(m[y..]) == shift + 1
    ensures cleared == Fill(n, blank) + Keep(rows[y..], m[y..])
  {
    SliceCons(rows, y);
    SliceCons(m, y);
    KeepCons(rows[y], m[y], rows[y + 1..], m[y + 1..]);
    assert [] + Keep(rows[y + 1..], m[y + 1..]) == Keep(rows[y + 1..], m[y + 1..]);
  }

  /** ... and any other row is copied to row `y + shift`, the top blank row. */
  lemma ClearUpCopy<T>(rows: seq<T>, m: seq<bool>, blank: T, y: int, above: int, shift: int, n: int, newY: int, cleared: seq<T>)
    requires |rows| == |m| && 0 <= y < |rows| && above == y + 1 && !m[y]
    requires shift == CountTrue(m[above..]) && n == above + shift && newY == y + shift
    requires cleared == Fill(n, blank) + Keep(rows[above..], m[above..])
    ensures CountTrue(m[y..]) == shift
    ensures 0 <= newY < |rows| && cleared[newY := rows[y]] == Fill(newY, blank) + Keep(rows[y..], m[y..])
  {
    SliceCons(rows, y);
    SliceCons(m, y);
    KeepCons(rows[y], m[y], rows[y + 1..], m[y + 1..]);
    FillUpdate(newY, blank, rows[y], Keep(rows[y + 1..], m[y + 1..]));
  }

  lemma FillUpdate<T>(n: nat, blank: T, v: T, rest: seq<T>)
    ensures (Fill(n + 1, blank) + rest)[n := v] == Fill(n, blank) + ([v] + rest)
  {
    var l := (Fill(n + 1, blank) + rest)[n := v];
    var r := Fill(n, blank) + ([v] + rest);
    assert |l| == |r|;
    forall k | 0 <= k < |l| ensures l[k] == r[k] {
    }
  }

  /** The height recomputation after a clear. */
  method RecomputeHeights(g: seq<seq<bool>>) returns (hs: seq<int>)
    requires IsGrid(g)
    ensures hs == HeightsOf(g)
  {
    hs := Fill(W, 0);
    for x := 0 to W
      invariant |hs| == W
      invariant forall c :: 0 <= c < x ==> hs[c] == ColumnHeight(g, c, H)
      invariant forall c :: x <= c < W ==> hs[c] == 0
    {
      var top := FindTop(g, x);
      if top.Some? {
        hs := hs[x := top.value + 1];
      }
    }
  }
}
