/**
 * The board engine of src/board.rs: a 15 x 10 occupancy grid with row 0 at
 * the bottom, a parallel colour grid, the per-column heights and the score.
 * `Apply` changes the board in place; `Simulate` measures a trial placement
 * on copies and changes nothing.
 *
 * The ghost fields `Cells` and `Colors` are the two grids as sequences of
 * rows; `Mirrors()` ties them to the arrays cell by cell.
 */
module BoardState {
  import opened Wrappers
  import opened Grid
  import opened Pieces
  import opened Features
  import opened Trial

  /** The line-clear bonus `apply` adds for `k` full rows. */
  function LineClearBonus(k: int): (b: int)
    ensures 0 <= b <= 800
    ensures b > 0 <==> 1 <= k <= 4
  {
    match k
    case 1 => 100
    case 2 => 300
    case 3 => 500
    case 4 => 800
    case _ => 0
  }

  /**
   * The grid `apply` leaves after a legal placement of `p` at column `x`:
   * the piece written in, then the full rows cleared downward. No row of it
   * is full.
   */
  function Committed(g: seq<seq<bool>>, p: Shape, x: int): (r: seq<seq<bool>>)
    requires IsGrid(g) && p.Valid() && 0 <= x && Legal(g, HeightsOf(g), p, x)
    ensures IsGrid(r) && NoFullRow(r)
  {
    var placed := Placed(g, HeightsOf(g), p, x);
    ClearedIsGrid(placed, FullMask(placed), BlankRow());
    ClearDownNoFullRow(placed);
    ClearDown(placed, FullMask(placed), BlankRow())
  }

  /** The points `apply` adds for a legal placement: the bonus for the rows it fills. */
  function Gain(g: seq<seq<bool>>, p: Shape, x: int): (b: int)
    requires IsGrid(g) && p.Valid() && 0 <= x && Legal(g, HeightsOf(g), p, x)
    ensures 0 <= b <= 800
    ensures b > 0 <==> 1 <= FullCount(Placed(g, HeightsOf(g), p, x)) <= 4
  {
    var placed := Placed(g, HeightsOf(g), p, x);
    LineClearBonus(FullCount(placed))
  }

  /**
   * `simulate` and `apply` agree: on a board with no full row, the row count
   * `simulate` reports is the number of rows `apply` removes (at most four),
   * `apply` scores exactly the bonus for that count, and the board loses `W`
   * occupied cells per removed row after gaining one per piece cell.
   */
  lemma ApplyMatchesSimulate(g: seq<seq<bool>>, p: Shape, x: int)
    requires IsGrid(g) && p.Valid() && 0 <= x && Legal(g, HeightsOf(g), p, x) && NoFullRow(g)
    ensures var k := Outcome(g, p, x).0;
      var ry := RestingRow(HeightsOf(g), p, x);
      && 0 <= k <= 4
      && k == FullCount(Placed(g, HeightsOf(g), p, x))
      && Gain(g, p, x) == LineClearBonus(k)
      && CellCount(Committed(g, p, x)) == CellCount(g) + |Blocks(p, x, ry)| - W * k
  {
    OutcomeCleared(g, p, x);
    PlacedFacts(g, p, x);
    ClearDownCellCount(Placed(g, HeightsOf(g), p, x));
  }

  /** The piece `ROTATIONS[piece_type][rotate]` has a block in row `i` of its mask. */
  predicate RowFilled(p: Shape, i: int)
    requires p.Valid() && 0 <= i < 4
  {
    exists k :: 0 <= k < |p.mask[i]| && p.mask[i][k] != 0
  }

  /** `i_max`: the highest of rows 0..3 with a block, or 0 when there is none. */
  function TopFilledRow(p: Shape, n: int): (i: int)
    requires p.Valid() && 0 <= n <= 4
    ensures 0 <= i < 4 && (n > 0 ==> i < n)
    ensures i > 0 ==> RowFilled(p, i)
    ensures forall k :: i < k < n ==> !RowFilled(p, k)
  {
    if n == 0 then 0
    else if RowFilled(p, n - 1) then n - 1
    else TopFilledRow(p, n - 1)
  }

  /** The least of `hs[lo..hi]`. */
  function MinHeight(hs: seq<int>, lo: int, hi: int): (m: int)
    requires 0 <= lo < hi <= |hs|
    ensures forall c :: lo <= c < hi ==> m <= hs[c]
    ensures exists c :: lo <= c < hi && m == hs[c]
    decreases hi - lo
  {
    if hi - lo == 1 then hs[lo]
    else
      var rest := MinHeight(hs, lo, hi - 1);
      if hs[hi - 1] < rest then hs[hi - 1] else rest
  }

  lemma MinHeightStep(hs: seq<int>, lo: int, hi: int)
    requires 0 <= lo < hi < |hs|
    ensures MinHeight(hs, lo, hi + 1) == if hs[hi] < MinHeight(hs, lo, hi) then hs[hi] else MinHeight(hs, lo, hi)
  {
  }

  /** The `i_max` search: rows 3 down to 0, the first with a nonzero entry. */
  method FindTopFilledRow(p: Shape) returns (iMax: int)
    requires p.Valid()
    ensures iMax == TopFilledRow(p, 4)
  {
    iMax := 0;
    var i := 4;
    while i > 0
      invariant 0 <= i <= 4 && iMax == 0
      invariant TopFilledRow(p, 4) == TopFilledRow(p, i)
    {
      i := i - 1;
      var any := false;
      for k := 0 to |p.mask[i]|
        invariant any <==> exists k' :: 0 <= k' < k && p.mask[i][k'] != 0
      {
        if p.mask[i][k] != 0 {
          any := true;
        }
      }
      if any {
        iMax := i;
        break;
      }
    }
  }

  /** The rows of a board-sized 2-D array. */
  ghost function Rows<T>(a: array2<T>): (rows: seq<seq<T>>)
    reads a
    requires a.Length0 == H && a.Length1 == W
    ensures IsGrid(rows) && forall r, c :: 0 <= r < H && 0 <= c < W ==> rows[r][c] == a[r, c]
  {
    seq(H, r requires 0 <= r < H reads a => seq(W, c requires 0 <= c < W reads a => a[r, c]))
  }

  /** `new_grid[new_y] = grid[y]`: one row copied, the others untouched. */
  method CopyRow<T>(src: array2<T>, y: int, dst: array2<T>, newY: int)
    requires src.Length0 == H && src.Length1 == W && dst.Length0 == H && dst.Length1 == W && src != dst
    requires 0 <= y < H && 0 <= newY < H
    modifies dst
    ensures Rows(dst) == old(Rows(dst))[newY := Rows(src)[y]]
  {
    forall c | 0 <= c < W {
      dst[newY, c] := src[y, c];
    }
    ghost var l, r := Rows(dst), old(Rows(dst))[newY := Rows(src)[y]];
    forall k | 0 <= k < H ensures l[k] == r[k] {
    }
  }

  /**
   * The compaction loop of `apply`'s clear, on one grid: walking up from
   * row 0, a full row bumps `shift`, and any other row `y` is copied to row
   * `y - shift` of a fresh blank grid.
   */
  method CompactDown<T>(src: array2<T>, fullRows: seq<int>, ghost g: seq<seq<T>>, ghost m: seq<bool>, blank: T)
      returns (dst: array2<T>)
    requires src.Length0 == H && src.Length1 == W && Rows(src) == g && |m| == H
    requires forall y :: 0 <= y < H ==> (y in fullRows <==> m[y])
    ensures fresh(dst) && dst.Length0 == H && dst.Length1 == W
    ensures Rows(dst) == ClearDown(g, m, Fill(W, blank))
  {
    dst := new T[H, W]((_, _) => blank);
    BlankRows(dst, blank);
    var shift := 0;
    assert g[..0] == [] && m[..0] == [];
    for y := 0 to H
      invariant 0 <= shift <= y && shift == CountTrue(m[..y])
      invariant Rows(dst) == Keep(g[..y], m[..y]) + Fill(H - (y - shift), Fill(W, blank))
      modifies dst
    {
      ClearDownStep(g, m, y, shift, Rows(dst), Fill(W, blank));
      if y in fullRows {
        shift := shift + 1;
        continue;
      }
      var newY := y - shift;
      if newY < H {
        CopyRow(src, y, dst, newY);
      }
    }
    ClearDownDone(g, m, shift, Rows(dst), Fill(W, blank));
  }

  /**
   * `apply`'s clear leaves no full row and keeps colours exactly on
   * occupied cells; with no full row it changes nothing.
   */
  lemma ClearKeepsRows(g: seq<seq<bool>>, colors: seq<seq<Option<int>>>)
    requires IsGrid(g) && IsGrid(colors) && Colored(g, colors)
    ensures NoFullRow(ClearDown(g, FullMask(g), BlankRow()))
    ensures Colored(ClearDown(g, FullMask(g), BlankRow()), ClearDown(colors, FullMask(g), NoneRow()))
    ensures FullCount(g) == 0 ==>
      ClearDown(g, FullMask(g), BlankRow()) == g && ClearDown(colors, FullMask(g), NoneRow()) == colors
  {
    ClearDownNoFullRow(g);
    ClearDownColored(g, colors);
    if FullCount(g) == 0 {
      KeepNone(g, FullMask(g), BlankRow());
      KeepNone(colors, FullMask(g), NoneRow());
    }
  }

  /** Membership in `full_rows` is the full-row mask. */
  lemma FullRowsMask(g: seq<seq<bool>>, fullRows: seq<int>)
    requires IsGrid(g) && fullRows == FullRows(g)
    ensures forall y :: 0 <= y < H ==> (y in fullRows <==> FullMask(g)[y])
  {
    FullRowsFacts(g);
  }

  /** `self.grid = new_grid`: every cell of `src` copied into `dst`. */
  method Overwrite<T>(src: array2<T>, dst: array2<T>)
    requires src.Length0 == H && src.Length1 == W && dst.Length0 == H && dst.Length1 == W && src != dst
    modifies dst
    ensures Rows(dst) == Rows(src)
  {
    forall r, c | 0 <= r < H && 0 <= c < W {
      dst[r, c] := src[r, c];
    }
    forall k | 0 <= k < H ensures Rows(dst)[k] == Rows(src)[k] {
    }
  }

  /** A freshly filled array reads as blank rows. */
  lemma BlankRows<T>(a: array2<T>, v: T)
    requires a.Length0 == H && a.Length1 == W
    requires forall r, c :: 0 <= r < H && 0 <= c < W ==> a[r, c] == v
    ensures Rows(a) == Fill(H, Fill(W, v))
  {
    forall k | 0 <= k < H ensures Rows(a)[k] == Fill(W, v) {
    }
  }

  /** `get_start_y`'s left/right test passes. */
  predicate StartInBounds(p: Shape, x: int, rotate: int)
    requires p.Valid() && 0 <= rotate < 4
  {
    x + p.leftmost[rotate] >= 0 && x + p.rightmost[rotate] < W
  }

  class Board {
    const grid: array2<bool>
    const colorGrid: array2<Option<int>>
    const heights: array<int>
    var score: int
    ghost var Cells: seq<seq<bool>>
    ghost var Colors: seq<seq<Option<int>>>

    /** The arrays have the board's dimensions and hold `Cells` and `Colors`. */
    ghost predicate Mirrors()
      reads this, grid, colorGrid, heights
    {
      && grid.Length0 == H && grid.Length1 == W
      && colorGrid.Length0 == H && colorGrid.Length1 == W
      && heights.Length == W
      && IsGrid(Cells) && IsGrid(Colors)
      && (forall y, x :: 0 <= y < H && 0 <= x < W ==> grid[y, x] == Cells[y][x])
      && (forall y, x :: 0 <= y < H && 0 <= x < W ==> colorGrid[y, x] == Colors[y][x])
    }

    /**
     * The board invariant: every height is one more than its column's
     * topmost occupied row (0 for an empty column), no row is full, a colour
     * is present exactly where a cell is occupied, and the score is not
     * negative.
     */
    ghost predicate Valid()
      reads this, grid, colorGrid, heights
    {
      && Mirrors()
      && heights[..] == HeightsOf(Cells)
      && NoFullRow(Cells)
      && Colored(Cells, Colors)
      && score >= 0
    }

    /** `Board::new`: the empty board with score 0. */
    constructor ()
      ensures Valid() && fresh(grid) && fresh(colorGrid) && fresh(heights)
      ensures Cells == BlankGrid() && Colors == Fill(H, NoneRow()) && heights[..] == Fill(W, 0) && score == 0
    {
      grid := new bool[H, W]((_, _) => false);
      colorGrid := new Option<int>[H, W]((_, _) => None);
      heights := new int[W](_ => 0);
      score := 0;
      Cells := BlankGrid();
      Colors := Fill(H, NoneRow());
      BlankHeights();
      forall y | 0 <= y < H ensures !IsFull(BlankGrid()[y]) {
        assert !BlankGrid()[y][0];
      }
    }

    /** `get_height`: one more than the topmost occupied row of `col`, or 0. */
    method GetHeight(col: int) returns (h: int)
      requires Valid() && 0 <= col < W
      ensures 0 <= h <= H
      ensures h > 0 ==> Cells[h - 1][col]
      ensures forall y :: h <= y < H ==> !Cells[y][col]
    {
      h := heights[col];
      ColumnHeightIsTop(Cells, col, H);
    }

    method GetScore() returns (s: int)
      requires Valid()
      ensures s == score && s >= 0
    {
      s := score;
    }

    // ------------------------------------------------------------- drop

    /** The `required_y` loop: the row the piece's box comes to rest on. */
    method RequiredY(p: Shape, x: int) returns (ry: int)
      requires Mirrors() && p.Valid() && 0 <= x && x + p.width <= W
      ensures ry == RestingRow(heights[..], p, x)
      ensures ry >= 0 && forall i, j :: Covers(p, i, j) ==> ry + i >= heights[x + j]
      ensures ry > 0 ==> exists i, j :: Covers(p, i, j) && ry + i == heights[x + j]
    {
      ghost var hs := heights[..];
      ry := 0;
      for dx := 0 to p.width
        invariant ry == NeedUpTo(hs, p, x, dx)
      {
        var hCol := heights[x + dx];
        var maxI := 0;
        var hasBlock := false;
        for i := 0 to p.height
          invariant maxI == ColumnNeed(hs, p, x, dx, i)
          invariant !hasBlock ==> maxI == 0
        {
          if p.mask[i][dx] != 0 {
            hasBlock := true;
            var current := hCol - i;
            if current > maxI {
              maxI := current;
            }
          }
        }
        if hasBlock && maxI > ry {
          ry := maxI;
        }
      }
      RestingRowIsLowest(hs, p, x);
    }

    /** The fit check: the piece's cells, row by row, unless one is off the top or occupied. */
    method CollectBlocks(p: Shape, x: int, ry: int) returns (blocks: Option<seq<Cell>>)
      requires Mirrors() && p.Valid() && 0 <= x && x + p.width <= W && ry >= 0
      ensures blocks.None? <==> !Fits(Cells, p, x, ry)
      ensures blocks.Some? ==> blocks.value == Blocks(p, x, ry)
    {
      var bs: seq<Cell> := [];
      for i := 0 to p.height
        invariant bs == BlocksUpTo(p, x, ry, i)
        invariant forall i', j :: 0 <= i' < i && 0 <= j < p.width && Covers(p, i', j) ==>
          ry + i' < H && !Cells[ry + i'][x + j]
      {
        var row := ScanRow(p, x, ry, i);
        if row.None? {
          return None;
        }
        bs := bs + row.value;
      }
      return Some(bs);
    }

    /** Row `i` of the piece in the `blocks` loop: its cells, or `None` at the first one that does not fit. */
    method ScanRow(p: Shape, x: int, ry: int, i: int) returns (row: Option<seq<Cell>>)
      requires Mirrors() && p.Valid() && 0 <= x && x + p.width <= W && ry >= 0 && 0 <= i < p.height
      ensures row.None? <==> exists j :: 0 <= j < p.width && Covers(p, i, j) && (ry + i >= H || Cells[ry + i][x + j])
      ensures row.Some? ==> row.value == RowBlocks(p, x, ry, i, p.width)
    {
      var bs: seq<Cell> := [];
      for j := 0 to p.width
        invariant bs == RowBlocks(p, x, ry, i, j)
        invariant forall j' :: 0 <= j' < j && Covers(p, i, j') ==> ry + i < H && !Cells[ry + i][x + j']
      {
        if p.mask[i][j] != 0 {
          var y := ry + i;
          var col := x + j;
          if y >= H || grid[y, col] {
            assert Covers(p, i, j);
            return None;
          }
          bs := bs + [Cell(y, col)];
        }
      }
      return Some(bs);
    }

    // ------------------------------------------------------------ apply

    /** The placement loop: each block is set, coloured and raises its column. */
    method PlaceBlocks(bs: seq<Cell>, tag: int)
      requires Mirrors() && AllOnBoard(bs)
      modifies this, grid, colorGrid, heights
      ensures Mirrors() && score == old(score)
      ensures Cells == PlaceAll(old(Cells), bs) && Colors == PaintAll(old(Colors), bs, tag)
      ensures heights[..] == RaiseAll(old(heights[..]), bs)
    {
      for k := 0 to |bs|
        invariant Mirrors() && score == old(score)
        invariant Cells == PlaceAll(old(Cells), bs[..k]) && Colors == PaintAll(old(Colors), bs[..k], tag)
        invariant heights[..] == RaiseAll(old(heights[..]), bs[..k])
      {
        assert bs[..k + 1][..k] == bs[..k];
        PlaceCell(bs[k], tag);
      }
      assert bs[..|bs|] == bs;
    }

    /** One block of the placement loop: the cell, its colour and its column's height. */
    method PlaceCell(b: Cell, tag: int)
      requires Mirrors() && OnBoard(b)
      modifies this, grid, colorGrid, heights
      ensures Mirrors() && score == old(score)
      ensures Cells == SetCell(old(Cells), b) && Colors == PaintCell(old(Colors), b, tag)
      ensures heights[..] == old(heights[..])[b.x := if old(heights[b.x]) < b.y + 1 then b.y + 1 else old(heights[b.x])]
    {
      grid[b.y, b.x] := true;
      colorGrid[b.y, b.x] := Some(tag);
      if heights[b.x] < b.y + 1 {
        heights[b.x] := b.y + 1;
      }
      Cells := SetCell(Cells, b);
      Colors := PaintCell(Colors, b, tag);
    }

    /** The `full_rows` scan over the board's grid. */
    method DetectFullRows() returns (fullRows: seq<int>)
      requires Mirrors()
      ensures fullRows == FullRows(Cells)
    {
      fullRows := [];
      for y := 0 to H
        invariant fullRows == FullRowsBelow(Cells, y)
      {
        var all := true;
        var x := 0;
        while x < W
          invariant 0 <= x <= W && all && forall x' :: 0 <= x' < x ==> Cells[y][x']
        {
          if !grid[y, x] {
            all := false;
            break;
          }
          x := x + 1;
        }
        if all {
          fullRows := fullRows + [y];
        }
      }
    }

    /**
     * `apply`'s clear: the surviving rows are compacted downward into fresh
     * blank grids, which then replace the board's grids.
     */
    method ClearRowsDown(fullRows: seq<int>)
      requires Mirrors() && fullRows == FullRows(Cells)
      modifies this, grid, colorGrid
      ensures Mirrors() && score == old(score)
      ensures Cells == ClearDown(old(Cells), FullMask(old(Cells)), BlankRow())
      ensures Colors == ClearDown(old(Colors), FullMask(old(Cells)), NoneRow())
    {
      MirroredRows();
      FullRowsMask(Cells, fullRows);
      var newGrid := CompactDown(grid, fullRows, Cells, FullMask(Cells), false);
      var newColorGrid := CompactDown(colorGrid, fullRows, Colors, FullMask(Cells), None);
      Overwrite(newGrid, grid);
      Overwrite(newColorGrid, colorGrid);
      Cells := Rows(grid);
      Colors := Rows(colorGrid);
      assert Rows(grid) == Cells;
    }

    /** The arrays, read as rows, are `Cells` and `Colors`. */
    lemma MirroredRows()
      requires Mirrors()
      ensures Rows(grid) == Cells && Rows(colorGrid) == Colors
    {
      forall y | 0 <= y < H ensures Rows(grid)[y] == Cells[y] && Rows(colorGrid)[y] == Colors[y] {
      }
    }

    /** The topmost occupied row of column `x`, if any. */
    method TopOf(x: int) returns (top: Option<int>)
      requires Mirrors() && 0 <= x < W
      ensures var h := ColumnHeight(Cells, x, H); top == if h == 0 then None else Some(h - 1)
    {
      top := None;
      for y := H downto 0
        invariant forall y' :: y <= y' < H ==> !Cells[y'][x]
      {
        if grid[y, x] {
          top := Some(y);
          ColumnHeightUnique(Cells, x, H, y + 1);
          return;
        }
      }
      ColumnHeightUnique(Cells, x, H, 0);
    }

    /** The height recomputation after `apply`'s clear. */
    method RecomputeHeights()
      requires Mirrors()
      modifies heights
      ensures Mirrors() && heights[..] == HeightsOf(Cells)
    {
      forall c | 0 <= c < W {
        heights[c] := 0;
      }
      for x := 0 to W
        invariant Mirrors()
        invariant forall c :: 0 <= c < x ==> heights[c] == ColumnHeight(Cells, c, H)
        invariant forall c :: x <= c < W ==> heights[c] == 0
      {
        var top := TopOf(x);
        if top.Some? {
          heights[x] := top.value + 1;
        }
      }
    }

    /**
     * `apply`: drop piece `kind` in rotation `rotate` at column `x`; on
     * success write it, clear the full rows and add the bonus. Both errors
     * are reported before anything is written.
     */
    method Apply(table: PieceTable, kind: PieceType, x: int, rotate: int) returns (r: Result<(), string>)
      requires Valid() && table.Valid() && 0 <= rotate < 4 && 0 <= x
      modifies this, grid, colorGrid, heights
      ensures Valid()
      ensures var p := table.Get(kind, rotate);
        && (r == Err("Piece out of bounds") <==> x + p.width > W)
        && (r == Err("Piece doesn't fit") <==> x + p.width <= W && !Legal(old(Cells), HeightsOf(old(Cells)), p, x))
        && (r.Ok? <==> Legal(old(Cells), HeightsOf(old(Cells)), p, x))
      ensures r.Err? ==> Cells == old(Cells) && Colors == old(Colors) && heights[..] == old(heights[..]) && score == old(score)
      ensures r.Ok? ==>
        var p := table.Get(kind, rotate);
        var hs := HeightsOf(old(Cells));
        var placed := Placed(old(Cells), hs, p, x);
        && Cells == Committed(old(Cells), p, x)
        && Colors == ClearDown(Painted(old(Cells), old(Colors), hs, p, x, kind.Tag()), FullMask(placed), NoneRow())
        && score == old(score) + Gain(old(Cells), p, x)
    {
      var p := table.Get(kind, rotate);
      var color := kind.Tag();
      if x + p.width > W {
        return Err("Piece out of bounds");
      }
      var ry := RequiredY(p, x);
      var blocks := CollectBlocks(p, x, ry);
      if blocks.None? {
        return Err("Piece doesn't fit");
      }
      var bs := blocks.value;
      PlacedFacts(Cells, p, x);
      BlocksCover(p, x, ry);
      PlaceAndClear(bs, color);
      r := Ok(());
    }

    /**
     * The part of `apply` after the checks: write the blocks, clear the full
     * rows downward, recompute the heights and add the bonus.
     */
    method PlaceAndClear(bs: seq<Cell>, color: int)
      requires Valid() && AllOnBoard(bs)
      requires HeightsOf(PlaceAll(Cells, bs)) == RaiseAll(HeightsOf(Cells), bs)
      modifies this, grid, colorGrid, heights
      ensures Valid()
      ensures var placed := PlaceAll(old(Cells), bs);
        && Cells == ClearDown(placed, FullMask(placed), BlankRow())
        && Colors == ClearDown(PaintAll(old(Colors), bs, color), FullMask(placed), NoneRow())
        && score == old(score) + LineClearBonus(FullCount(placed))
    {
      PlaceAllColored(Cells, Colors, bs, color);
      PlaceBlocks(bs, color);
      ghost var placed := Cells;
      ghost var placedColors := Colors;
      var fullRows := DetectFullRows();
      FullRowsFacts(placed);
      ClearKeepsRows(placed, placedColors);
      if |fullRows| > 0 {
        ClearRowsDown(fullRows);
        RecomputeHeights();
        score := score + LineClearBonus(|fullRows|);
      }
    }

    // --------------------------------------------------------- simulate

    /** `self.grid.clone()` */
    method CopyGrid() returns (g: seq<seq<bool>>)
      requires Mirrors()
      ensures g == Cells
    {
      g := [];
      for y := 0 to H
        invariant g == Cells[..y]
      {
        var row: seq<bool> := [];
        for x := 0 to W
          invariant row == Cells[y][..x]
        {
          row := row + [grid[y, x]];
        }
        assert row == Cells[y];
        g := g + [row];
      }
    }

    /**
     * `simulate`: `None` exactly when `apply` would fail, otherwise the rows
     * cleared and the feature values of the trial placement (features 0-8
     * and the height sum). The board is not changed.
     */
    method Simulate(table: PieceTable, kind: PieceType, x: int, rotate: int) returns (r: Option<(int, Features)>)
      requires Valid() && table.Valid() && 0 <= rotate < 4 && 0 <= x
      ensures r.None? <==> !Legal(Cells, HeightsOf(Cells), table.Get(kind, rotate), x)
      ensures r.Some? ==> r.value == Outcome(Cells, table.Get(kind, rotate), x)
    {
      var p := table.Get(kind, rotate);
      if x + p.width > W {
        return None;
      }
      var ry := RequiredY(p, x);
      var blocks := CollectBlocks(p, x, ry);
      if blocks.None? {
        return None;
      }
      var bs := blocks.value;
      PlacedFacts(Cells, p, x);
      var tempGrid := CopyGrid();
      ghost var placed := PlaceAll(Cells, bs);
      var after, hsAfter, fullRows := PlaceAndClearCopy(tempGrid, heights[..], bs);
      FullRowsFacts(placed);
      FullRowsMask(placed, fullRows);
      LandingAtLeastResting(p, x, ry);
      BlocksOnBoard(Cells, p, x, ry);
      var f := Measure(bs, fullRows, FullMask(placed), after, hsAfter);
      r := Some((|fullRows|, f));
    }

    // ------------------------------------------------------- start row

    /**
     * `get_start_y`: 0 when the piece's extent leaves the board, otherwise
     * the least height under the piece's box less the index of its top
     * filled row.
     */
    method GetStartY(table: PieceTable, kind: PieceType, x: int, rotate: int) returns (startY: int)
      requires Valid() && table.Valid() && 0 <= rotate < 4 && 0 <= x
      requires var p := table.Get(kind, rotate);
        StartInBounds(p, x, rotate) ==> x + p.width <= W && MinHeight(HeightsOf(Cells), x, x + p.width) >= TopFilledRow(p, 4)
      ensures var p := table.Get(kind, rotate);
        && startY >= 0
        && (!StartInBounds(p, x, rotate) ==> startY == 0)
        && (StartInBounds(p, x, rotate) ==>
              startY + TopFilledRow(p, 4) == MinHeight(HeightsOf(Cells), x, x + p.width)
              && forall c :: x <= c < x + p.width ==> startY + TopFilledRow(p, 4) <= HeightsOf(Cells)[c])
    {
      var p := table.Get(kind, rotate);
      var left := x + p.leftmost[rotate];
      var right := x + p.rightmost[rotate];
      if left < 0 || right >= W {
        return 0;
      }
      var iMax := FindTopFilledRow(p);
      var minHeight := LowestColumn(x, x + p.width);
      startY := minHeight - iMax;
    }

    /** The `min_height` scan over columns `lo..hi`. */
    method LowestColumn(lo: int, hi: int) returns (minHeight: int)
      requires heights.Length == W && 0 <= lo < hi <= W
      ensures minHeight == MinHeight(heights[..], lo, hi)
    {
      minHeight := heights[lo];
      for c := lo + 1 to hi
        invariant minHeight == MinHeight(heights[..], lo, c)
      {
        MinHeightStep(heights[..], lo, c);
        if heights[c] < minHeight {
          minHeight := heights[c];
        }
      }
    }
  }

  // ------------------------------------------------------ clear lemmas

  /**
   * One row of `apply`'s clear, processed from the bottom: a full row only
   * bumps the count, any other row is written just above the survivors so far.
   */
  lemma ClearDownStep<T>(g: seq<seq<T>>, m: seq<bool>, y: int, shift: int, rows: seq<seq<T>>, blank: seq<T>)
    requires |g| == H && |m| == H && 0 <= y < H
    requires shift == CountTrue(m[..y]) && rows == Keep(g[..y], m[..y]) + Fill(H - (y - shift), blank)
    ensures CountTrue(m[..y + 1]) == shift + (if m[y] then 1 else 0)
    ensures m[y] ==> rows == Keep(g[..y + 1], m[..y + 1]) + Fill(H - (y + 1 - (shift + 1)), blank)
    ensures !m[y] ==> (0 <= y - shift < H &&
      rows[y - shift := g[y]] == Keep(g[..y + 1], m[..y + 1]) + Fill(H - (y + 1 - shift), blank))
  {
    assert m[..y + 1][..y] == m[..y] && g[..y + 1][..y] == g[..y];
    var kept := Keep(g[..y], m[..y]);
    if !m[y] {
      var l := rows[y - shift := g[y]];
      var r := kept + [g[y]] + Fill(H - (y + 1 - shift), blank);
      assert |l| == |r|;
      forall k | 0 <= k < |l| ensures l[k] == r[k] {
      }
    }
  }

  /** After the last row, the rows built are `apply`'s clear. */
  lemma ClearDownDone<T>(g: seq<seq<T>>, m: seq<bool>, shift: int, rows: seq<seq<T>>, blank: seq<T>)
    requires |g| == H && |m| == H
    requires shift == CountTrue(m[..H]) && rows == Keep(g[..H], m[..H]) + Fill(H - (H - shift), blank)
    ensures rows == ClearDown(g, m, blank)
  {
    assert g[..H] == g && m[..H] == m;
  }
}
