/**
 * Pieces and where they come to rest (src/board.rs:63-119, 310-364).
 *
 * The rotation table `ROTATIONS` lives in src/piece.rs, which is not part of
 * this model: a piece table is a parameter, and every shape in it only has to
 * meet `Shape.Valid()`.
 */
module Pieces {
  import opened Wrappers
  import opened Grid

  /** `PieceType`; its discriminant is the colour tag `apply` writes. */
  datatype PieceType = I | T | O | J | L | S | Z {
    function Tag(): (t: int)
      ensures 0 <= t < 7
    {
      match this
      case I => 0
      case T => 1
      case O => 2
      case J => 3
      case L => 4
      case S => 5
      case Z => 6
    }
  }

  /**
   * One rotation of one piece: its bounding box, its occupancy mask (indexed
   * `[i][j]`, row `i` counted upward from the bottom of the piece; a cell is
   * occupied when its entry is not 0) and the `leftmost`/`rightmost` offsets.
   */
  datatype Shape = Shape(width: int, height: int, mask: seq<seq<int>>, leftmost: seq<int>, rightmost: seq<int>)
  {
    predicate Valid()
    {
      && 1 <= width <= W && 1 <= height <= 4
      && |mask| >= 4 && (forall i :: 0 <= i < |mask| ==> |mask[i]| >= width)
      && |leftmost| == 4 && |rightmost| == 4
    }
  }

  /** `ROTATIONS`: a shape for each piece type and each of the four rotations. */
  datatype PieceTable = PieceTable(rotations: seq<seq<Shape>>)
  {
    predicate Valid()
    {
      |rotations| == 7 &&
      forall k :: 0 <= k < 7 ==> |rotations[k]| == 4 && forall r :: 0 <= r < 4 ==> rotations[k][r].Valid()
    }

    function Get(kind: PieceType, rotate: int): (p: Shape)
      requires Valid() && 0 <= rotate < 4
      ensures p.Valid()
    {
      rotations[kind.Tag()][rotate]
    }
  }

  /** The piece occupies cell `(i, j)` of its bounding box. */
  predicate Covers(p: Shape, i: int, j: int)
    requires p.Valid()
  {
    0 <= i < p.height && 0 <= j < p.width && p.mask[i][j] != 0
  }

  // ---------------------------------------------------------------- gravity

  /**
   * `max_i_for_dx` after rows `[0, n)` of piece column `dx`: the largest
   * `heights[x + dx] - i` over the occupied cells `(i, dx)`, and at least 0.
   */
  function ColumnNeed(hs: seq<int>, p: Shape, x: int, dx: int, n: int): (r: int)
    requires p.Valid() && |hs| == W && 0 <= x && x + p.width <= W
    requires 0 <= dx < p.width && 0 <= n <= p.height
    ensures r >= 0
  {
    if n == 0 then 0
    else
      var prev := ColumnNeed(hs, p, x, dx, n - 1);
      var cur := hs[x + dx] - (n - 1);
      if p.mask[n - 1][dx] != 0 && cur > prev then cur else prev
  }

  /** `required_y` after piece columns `[0, k)`. */
  function NeedUpTo(hs: seq<int>, p: Shape, x: int, k: int): (r: int)
    requires p.Valid() && |hs| == W && 0 <= x && x + p.width <= W && 0 <= k <= p.width
    ensures r >= 0
  {
    if k == 0 then 0
    else
      var prev := NeedUpTo(hs, p, x, k - 1);
      var need := ColumnNeed(hs, p, x, k - 1, p.height);
      if need > prev then need else prev
  }

  /** `required_y`: the row the bottom of the piece's box comes to rest on. */
  function RestingRow(hs: seq<int>, p: Shape, x: int): int
    requires p.Valid() && |hs| == W && 0 <= x && x + p.width <= W
  {
    NeedUpTo(hs, p, x, p.width)
  }

  lemma {:induction false} ColumnNeedIsMax(hs: seq<int>, p: Shape, x: int, dx: int, n: int)
    requires p.Valid() && |hs| == W && 0 <= x && x + p.width <= W
    requires 0 <= dx < p.width && 0 <= n <= p.height
    ensures var r := ColumnNeed(hs, p, x, dx, n);
      && (forall i :: 0 <= i < n && p.mask[i][dx] != 0 ==> r >= hs[x + dx] - i)
      && (r > 0 ==> exists i :: 0 <= i < n && p.mask[i][dx] != 0 && r == hs[x + dx] - i)
  {
    if n > 0 {
      ColumnNeedIsMax(hs, p, x, dx, n - 1);
    }
  }

  lemma {:induction false} NeedUpToIsMax(hs: seq<int>, p: Shape, x: int, k: int)
    requires p.Valid() && |hs| == W && 0 <= x && x + p.width <= W && 0 <= k <= p.width
    ensures var r := NeedUpTo(hs, p, x, k);
      && (forall i, j :: Covers(p, i, j) && j < k ==> r >= hs[x + j] - i)
      && (r > 0 ==> exists i, j :: Covers(p, i, j) && j < k && r == hs[x + j] - i)
  {
    if k > 0 {
      NeedUpToIsMax(hs, p, x, k - 1);
      ColumnNeedIsMax(hs, p, x, k - 1, p.height);
      var r := NeedUpTo(hs, p, x, k);
      var need := ColumnNeed(hs, p, x, k - 1, p.height);
      if r > 0 && need > NeedUpTo(hs, p, x, k - 1) {
        var i :| 0 <= i < p.height && p.mask[i][k - 1] != 0 && need == hs[x + k - 1] - i;
        assert Covers(p, i, k - 1);
      }
    }
  }

  /**
   * Gravity: the resting row is `max(0, heights[x + j] - i)` over the
   * occupied cells `(i, j)`. Every cell of the piece therefore lands at or
   * above its column's height and, unless the piece rests on row 0, some cell
   * sits exactly on its column's height.
   */
  lemma RestingRowIsLowest(hs: seq<int>, p: Shape, x: int)
    requires p.Valid() && |hs| == W && 0 <= x && x + p.width <= W
    ensures var ry := RestingRow(hs, p, x);
      && ry >= 0
      && (forall i, j :: Covers(p, i, j) ==> ry + i >= hs[x + j])
      && (ry > 0 ==> exists i, j :: Covers(p, i, j) && ry + i == hs[x + j])
  {
    NeedUpToIsMax(hs, p, x, p.width);
  }

  // ----------------------------------------------------------------- blocks

  /** The `blocks` pushed for row `i` of the piece, columns `[0, n)`. */
  function RowBlocks(p: Shape, x: int, ry: int, i: int, n: int): (bs: seq<Cell>)
    requires p.Valid() && 0 <= i < p.height && 0 <= n <= p.width
    ensures |bs| <= n
  {
    if n == 0 then []
    else RowBlocks(p, x, ry, i, n - 1) + (if p.mask[i][n - 1] != 0 then [Cell(ry + i, x + n - 1)] else [])
  }

  /** The `blocks` pushed for rows `[0, m)` of the piece. */
  function BlocksUpTo(p: Shape, x: int, ry: int, m: int): seq<Cell>
    requires p.Valid() && 0 <= m <= p.height
  {
    if m == 0 then [] else BlocksUpTo(p, x, ry, m - 1) + RowBlocks(p, x, ry, m - 1, p.width)
  }

  /** `blocks`: the board cells of the piece, row by row, left to right. */
  function Blocks(p: Shape, x: int, ry: int): seq<Cell>
    requires p.Valid()
  {
    BlocksUpTo(p, x, ry, p.height)
  }

  /** Strictly increasing in row-major order; in particular without repeats. */
  predicate RowMajor(bs: seq<Cell>)
  {
    forall k, l :: 0 <= k < l < |bs| ==> bs[k].y < bs[l].y || (bs[k].y == bs[l].y && bs[k].x < bs[l].x)
  }

  /** Appending cells that all come after the last one keeps a list row-major. */
  lemma RowMajorAppend(a: seq<Cell>, t: seq<Cell>)
    requires RowMajor(a) && RowMajor(t)
    requires forall k, l :: 0 <= k < |a| && 0 <= l < |t| ==>
      a[k].y < t[l].y || (a[k].y == t[l].y && a[k].x < t[l].x)
    ensures RowMajor(a + t)
  {
    forall k, l | 0 <= k < l < |a + t|
      ensures (a + t)[k].y < (a + t)[l].y || ((a + t)[k].y == (a + t)[l].y && (a + t)[k].x < (a + t)[l].x)
    {
      if l < |a| {
        assert (a + t)[k] == a[k] && (a + t)[l] == a[l];
      } else if k < |a| {
        assert (a + t)[k] == a[k] && (a + t)[l] == t[l - |a|];
      } else {
        assert (a + t)[k] == t[k - |a|] && (a + t)[l] == t[l - |a|];
      }
    }
  }

  lemma {:induction false} RowBlocksOrder(p: Shape, x: int, ry: int, i: int, n: int)
    requires p.Valid() && 0 <= i < p.height && 0 <= n <= p.width
    ensures var bs := RowBlocks(p, x, ry, i, n);
      && RowMajor(bs)
      && (forall k :: 0 <= k < |bs| ==> bs[k].y == ry + i && x <= bs[k].x < x + n)
  {
    if n > 0 {
      RowBlocksOrder(p, x, ry, i, n - 1);
      var a := RowBlocks(p, x, ry, i, n - 1);
      var t: seq<Cell> := if p.mask[i][n - 1] != 0 then [Cell(ry + i, x + n - 1)] else [];
      RowMajorAppend(a, t);
      var bs := a + t;
      forall k | 0 <= k < |bs| ensures bs[k].y == ry + i && x <= bs[k].x < x + n {
        if k < |a| { assert bs[k] == a[k]; } else { assert bs[k] == t[k - |a|]; }
      }
    }
  }

  lemma {:induction false} RowBlocksIn(p: Shape, x: int, ry: int, i: int, n: int)
    requires p.Valid() && 0 <= i < p.height && 0 <= n <= p.width
    ensures forall b :: b in RowBlocks(p, x, ry, i, n) <==> b.y == ry + i && x <= b.x < x + n && Covers(p, i, b.x - x)
  {
    if n > 0 {
      RowBlocksIn(p, x, ry, i, n - 1);
    }
  }

  lemma {:induction false} BlocksUpToOrder(p: Shape, x: int, ry: int, m: int)
    requires p.Valid() && 0 <= m <= p.height
    ensures var bs := BlocksUpTo(p, x, ry, m);
      && RowMajor(bs)
      && (forall k :: 0 <= k < |bs| ==> ry <= bs[k].y < ry + m)
  {
    if m > 0 {
      BlocksUpToOrder(p, x, ry, m - 1);
      RowBlocksOrder(p, x, ry, m - 1, p.width);
      var a := BlocksUpTo(p, x, ry, m - 1);
      var t := RowBlocks(p, x, ry, m - 1, p.width);
      RowMajorAppend(a, t);
      var bs := a + t;
      forall k | 0 <= k < |bs| ensures ry <= bs[k].y < ry + m {
        if k < |a| { assert bs[k] == a[k]; } else { assert bs[k] == t[k - |a|]; }
      }
    }
  }

  lemma {:induction false} BlocksUpToIn(p: Shape, x: int, ry: int, m: int)
    requires p.Valid() && 0 <= m <= p.height
    ensures forall b :: b in BlocksUpTo(p, x, ry, m) <==> ry <= b.y < ry + m && Covers(p, b.y - ry, b.x - x)
  {
    if m > 0 {
      BlocksUpToIn(p, x, ry, m - 1);
      RowBlocksIn(p, x, ry, m - 1, p.width);
    }
  }

  /**
   * The blocks are exactly the board cells the piece covers when its box sits
   * at column `x`, row `ry`; each appears once, in row-major order.
   */
  lemma BlocksCover(p: Shape, x: int, ry: int)
    requires p.Valid()
    ensures var bs := Blocks(p, x, ry);
      && RowMajor(bs)
      && (forall b :: b in bs <==> Covers(p, b.y - ry, b.x - x))
  {
    BlocksUpToOrder(p, x, ry, p.height);
    BlocksUpToIn(p, x, ry, p.height);
  }

  // -------------------------------------------------------------------- fit

  /** Every cell of the piece lies below the top of the board and on an empty cell. */
  predicate Fits(g: seq<seq<bool>>, p: Shape, x: int, ry: int)
    requires IsGrid(g) && p.Valid() && 0 <= x && x + p.width <= W && ry >= 0
  {
    forall i, j :: 0 <= i < p.height && 0 <= j < p.width && Covers(p, i, j) ==> ry + i < H && !g[ry + i][x + j]
  }

  /**
   * The placement `simulate` accepts and `apply` performs: inside the side
   * walls, and fitting at the resting row.
   */
  predicate Legal(g: seq<seq<bool>>, hs: seq<int>, p: Shape, x: int)
    requires IsGrid(g) && |hs| == W && p.Valid() && 0 <= x
  {
    && x + p.width <= W
    && (RestingRowIsLowest(hs, p, x); Fits(g, p, x, RestingRow(hs, p, x)))
  }

  predicate AllOnBoard(bs: seq<Cell>)
  {
    forall k :: 0 <= k < |bs| ==> OnBoard(bs[k])
  }

  lemma BlocksOnBoard(g: seq<seq<bool>>, p: Shape, x: int, ry: int)
    requires IsGrid(g) && p.Valid() && 0 <= x && x + p.width <= W && ry >= 0
    requires Fits(g, p, x, ry)
    ensures AllOnBoard(Blocks(p, x, ry))
    ensures forall k :: 0 <= k < |Blocks(p, x, ry)| ==> !g[Blocks(p, x, ry)[k].y][Blocks(p, x, ry)[k].x]
  {
    BlocksCover(p, x, ry);
    var bs := Blocks(p, x, ry);
    forall k | 0 <= k < |bs| ensures OnBoard(bs[k]) && !g[bs[k].y][bs[k].x] {
      assert bs[k] in bs;
      assert Covers(p, bs[k].y - ry, bs[k].x - x);
    }
  }

  /**
   * When the heights match the grid, the occupancy test of the fit check
   * never fails: a placement inside the walls is legal exactly when no cell
   * of the piece lands at row `H` or above.
   */
  lemma NoCollision(g: seq<seq<bool>>, p: Shape, x: int)
    requires IsGrid(g) && p.Valid() && 0 <= x && x + p.width <= W
    ensures var ry := RestingRow(HeightsOf(g), p, x);
      Legal(g, HeightsOf(g), p, x) <==> forall i, j :: Covers(p, i, j) ==> ry + i < H
  {
    var hs := HeightsOf(g);
    var ry := RestingRow(hs, p, x);
    RestingRowIsLowest(hs, p, x);
    forall i, j | Covers(p, i, j) && ry + i < H ensures !g[ry + i][x + j] {
      ColumnHeightIsTop(g, x + j, H);
    }
  }

  // -------------------------------------------------------------- placement

  function PlaceAll(g: seq<seq<bool>>, bs: seq<Cell>): (r: seq<seq<bool>>)
    requires IsGrid(g) && AllOnBoard(bs)
    ensures IsGrid(r)
  {
    if bs == [] then g else SetCell(PlaceAll(g, bs[..|bs| - 1]), bs[|bs| - 1])
  }

  function PaintAll<T>(colors: seq<seq<Option<T>>>, bs: seq<Cell>, tag: T): (r: seq<seq<Option<T>>>)
    requires IsGrid(colors) && AllOnBoard(bs)
    ensures IsGrid(r)
  {
    if bs == [] then colors else PaintCell(PaintAll(colors, bs[..|bs| - 1], tag), bs[|bs| - 1], tag)
  }

  /** `heights[col] = heights[col].max(y + 1)` for each block in turn. */
  function RaiseAll(hs: seq<int>, bs: seq<Cell>): (r: seq<int>)
    requires |hs| == W && AllOnBoard(bs)
    ensures |r| == W
  {
    if bs == [] then hs
    else
      var h := RaiseAll(hs, bs[..|bs| - 1]);
      var b := bs[|bs| - 1];
      h[b.x := if h[b.x] < b.y + 1 then b.y + 1 else h[b.x]]
  }

  /** The grid right after a legal placement, before any row is cleared. */
  function Placed(g: seq<seq<bool>>, hs: seq<int>, p: Shape, x: int): (r: seq<seq<bool>>)
    requires IsGrid(g) && |hs| == W && p.Valid() && 0 <= x && Legal(g, hs, p, x)
    ensures IsGrid(r)
  {
    var ry := RestingRow(hs, p, x);
    BlocksOnBoard(g, p, x, ry);
    PlaceAll(g, Blocks(p, x, ry))
  }

  /** The colour grid right after a legal placement of a piece tagged `tag`. */
  function Painted<T>(g: seq<seq<bool>>, colors: seq<seq<Option<T>>>, hs: seq<int>, p: Shape, x: int, tag: T): (r: seq<seq<Option<T>>>)
    requires IsGrid(g) && IsGrid(colors) && |hs| == W && p.Valid() && 0 <= x && Legal(g, hs, p, x)
    ensures IsGrid(r)
  {
    var ry := RestingRow(hs, p, x);
    BlocksOnBoard(g, p, x, ry);
    PaintAll(colors, Blocks(p, x, ry), tag)
  }

  /** After placement a cell is occupied iff it was before or a block landed on it. */
  lemma {:induction false} PlaceAllAt(g: seq<seq<bool>>, bs: seq<Cell>, y: int, c: int)
    requires IsGrid(g) && AllOnBoard(bs) && 0 <= y < H && 0 <= c < W
    ensures PlaceAll(g, bs)[y][c] == (g[y][c] || Cell(y, c) in bs)
  {
    if bs != [] {
      var n := |bs| - 1;
      PlaceAllAt(g, bs[..n], y, c);
      assert bs == bs[..n] + [bs[n]];
    }
  }

  /** Raising the heights block by block gives the heights of the new grid. */
  lemma {:induction false} PlaceAllHeights(g: seq<seq<bool>>, bs: seq<Cell>)
    requires IsGrid(g) && AllOnBoard(bs)
    ensures HeightsOf(PlaceAll(g, bs)) == RaiseAll(HeightsOf(g), bs)
  {
    if bs != [] {
      var n := |bs| - 1;
      PlaceAllHeights(g, bs[..n]);
      SetCellHeights(PlaceAll(g, bs[..n]), bs[n]);
    }
  }

  lemma {:induction false} PlaceAllColored<T>(g: seq<seq<bool>>, colors: seq<seq<Option<T>>>, bs: seq<Cell>, tag: T)
    requires IsGrid(g) && IsGrid(colors) && AllOnBoard(bs) && Colored(g, colors)
    ensures Colored(PlaceAll(g, bs), PaintAll(colors, bs, tag))
  {
    if bs != [] {
      var n := |bs| - 1;
      PlaceAllColored(g, colors, bs[..n], tag);
      SetCellColored(PlaceAll(g, bs[..n]), PaintAll(colors, bs[..n], tag), bs[n], tag);
    }
  }

  /** Placing distinct blocks on empty cells adds one occupied cell per block. */
  lemma {:induction false} PlaceAllCount(g: seq<seq<bool>>, bs: seq<Cell>)
    requires IsGrid(g) && AllOnBoard(bs) && RowMajor(bs)
    requires forall k :: 0 <= k < |bs| ==> !g[bs[k].y][bs[k].x]
    ensures CellCount(PlaceAll(g, bs)) == CellCount(g) + |bs|
  {
    if bs != [] {
      var n := |bs| - 1;
      var b := bs[n];
      PlaceAllCount(g, bs[..n]);
      PlaceAllAt(g, bs[..n], b.y, b.x);
      assert b !in bs[..n];
      SetCellCount(PlaceAll(g, bs[..n]), b);
    }
  }

  /**
   * A legal placement on a board with consistent heights keeps them
   * consistent, and adds exactly one occupied cell per piece cell.
   */
  lemma PlacedFacts(g: seq<seq<bool>>, p: Shape, x: int)
    requires IsGrid(g) && p.Valid() && 0 <= x && Legal(g, HeightsOf(g), p, x)
    ensures var ry := RestingRow(HeightsOf(g), p, x);
      && AllOnBoard(Blocks(p, x, ry))
      && HeightsOf(Placed(g, HeightsOf(g), p, x)) == RaiseAll(HeightsOf(g), Blocks(p, x, ry))
      && CellCount(Placed(g, HeightsOf(g), p, x)) == CellCount(g) + |Blocks(p, x, ry)|
  {
    var ry := RestingRow(HeightsOf(g), p, x);
    BlocksOnBoard(g, p, x, ry);
    BlocksCover(p, x, ry);
    PlaceAllHeights(g, Blocks(p, x, ry));
    PlaceAllCount(g, Blocks(p, x, ry));
  }

  /** A mask whose true entries all lie in `[lo, hi)` has at most `hi - lo` of them. */
  lemma CountWindow(m: seq<bool>, lo: int, hi: int)
    requires 0 <= lo <= hi <= |m|
    requires forall y :: 0 <= y < |m| && m[y] ==> lo <= y < hi
    ensures CountTrue(m) <= hi - lo
  {
    assert m == m[..lo] + m[lo..hi] + m[hi..];
    CountNone(m[..lo]);
    CountNone(m[hi..]);
    CountTrueAppend(m[..lo] + m[lo..hi], m[hi..]);
    CountTrueAppend(m[..lo], m[lo..hi]);
  }

  /** On a board with no full row, only rows the piece touches can fill. */
  lemma FullRowsTouched(g: seq<seq<bool>>, hs: seq<int>, p: Shape, x: int, y: int)
    requires IsGrid(g) && |hs| == W && p.Valid() && 0 <= x && Legal(g, hs, p, x)
    requires NoFullRow(g) && 0 <= y < H && IsFull(Placed(g, hs, p, x)[y])
    ensures RestingRow(hs, p, x) <= y < RestingRow(hs, p, x) + p.height
  {
    var ry := RestingRow(hs, p, x);
    var bs := Blocks(p, x, ry);
    BlocksOnBoard(g, p, x, ry);
    BlocksCover(p, x, ry);
    assert !IsFull(g[y]);
    var c :| 0 <= c < W && !g[y][c];
    PlaceAllAt(g, bs, y, c);
    assert Cell(y, c) in bs;
  }

  /**
   * A placement on a board with no full row clears at most `p.height <= 4`
   * rows, so the `_ => 0` arm of the score table is never reached.
   */
  lemma AtMostFourCleared(g: seq<seq<bool>>, hs: seq<int>, p: Shape, x: int)
    requires IsGrid(g) && |hs| == W && p.Valid() && 0 <= x && Legal(g, hs, p, x)
    requires NoFullRow(g)
    ensures FullCount(Placed(g, hs, p, x)) <= p.height <= 4
  {
    var ry := RestingRow(hs, p, x);
    RestingRowIsLowest(hs, p, x);
    var placed := Placed(g, hs, p, x);
    var m := FullMask(placed);
    var lo := if ry < H then ry else H;
    var hi := if ry + p.height < H then ry + p.height else H;
    forall y | 0 <= y < H && m[y] ensures lo <= y < hi {
      FullRowsTouched(g, hs, p, x, y);
    }
    CountWindow(m, lo, hi);
  }
}
