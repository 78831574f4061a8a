/**
 * The board's grids as values (src/board.rs:4-5, 24-29): `H` rows of `W`
 * cells, row 0 at the bottom. This module holds the specification of the
 * operations both `simulate` and `apply` perform on whole rows and columns:
 * the full-row mask, the two row compactions (downward in `apply`, upward in
 * `simulate`), column heights and occupied-cell counts.
 */
module Grid {
  import opened Wrappers

  /** `BOARD_HEIGHT` and `BOARD_WIDTH`. */
  const H: int := 15
  const W: int := 10

  /** A value of a `[[T; BOARD_WIDTH]; BOARD_HEIGHT]` array, indexed `[y][x]`. */
  predicate IsGrid<T>(g: seq<seq<T>>)
  {
    |g| == H && forall y :: 0 <= y < H ==> |g[y]| == W
  }

  /** A board cell `(y, col)`, as pushed onto `blocks`. */
  datatype Cell = Cell(y: int, x: int)

  predicate OnBoard(c: Cell)
  {
    0 <= c.y < H && 0 <= c.x < W
  }

  function Fill<T>(n: nat, v: T): (r: seq<T>)
    ensures |r| == n && forall i :: 0 <= i < n ==> r[i] == v
  {
    seq(n, _ => v)
  }

  function BlankRow(): seq<bool>
  {
    Fill(W, false)
  }

  function NoneRow<T>(): seq<Option<T>>
  {
    Fill(W, None)
  }

  /** The empty board of `Board::new`. */
  function BlankGrid(): (g: seq<seq<bool>>)
    ensures IsGrid(g)
  {
    Fill(H, BlankRow())
  }

  /** Every cell of the row is occupied. */
  predicate IsFull(row: seq<bool>)
  {
    forall x :: 0 <= x < |row| ==> row[x]
  }

  predicate NoFullRow(g: seq<seq<bool>>)
  {
    forall y :: 0 <= y < |g| ==> !IsFull(g[y])
  }

  /** Entry `y` tells whether row `y` is full. */
  function FullMask(g: seq<seq<bool>>): (m: seq<bool>)
    ensures |m| == |g| && forall y :: 0 <= y < |g| ==> m[y] == IsFull(g[y])
  {
    seq(|g|, y requires 0 <= y < |g| => IsFull(g[y]))
  }

  function CountTrue(m: seq<bool>): (n: nat)
    ensures n <= |m|
  {
    if m == [] then 0 else CountTrue(m[..|m| - 1]) + (if m[|m| - 1] then 1 else 0)
  }

  /** The number of rows `apply` and `simulate` clear from `g`. */
  function FullCount(g: seq<seq<bool>>): nat
  {
    CountTrue(FullMask(g))
  }

  /** The `full_rows` vector: the indices of the full rows below `n`, ascending. */
  function FullRowsBelow(g: seq<seq<bool>>, n: nat): seq<int>
    requires n <= |g|
  {
    if n == 0 then [] else FullRowsBelow(g, n - 1) + (if IsFull(g[n - 1]) then [n - 1] else [])
  }

  /**
   * The vector lists exactly the full rows below `n`, each once and in
   * ascending order, so its length is the number of full rows there.
   */
  lemma {:induction false} FullRowsBelowFacts(g: seq<seq<bool>>, n: nat)
    requires n <= |g|
    ensures |FullRowsBelow(g, n)| == CountTrue(FullMask(g)[..n])
    ensures forall y :: y in FullRowsBelow(g, n) <==> 0 <= y < n && IsFull(g[y])
    ensures forall i, j :: 0 <= i < j < |FullRowsBelow(g, n)| ==> FullRowsBelow(g, n)[i] < FullRowsBelow(g, n)[j]
    ensures forall i :: 0 <= i < |FullRowsBelow(g, n)| ==> 0 <= FullRowsBelow(g, n)[i] < n
    decreases n
  {
    if n > 0 {
      FullRowsBelowFacts(g, n - 1);
      var m := FullMask(g);
      assert m[..n][..n - 1] == m[..n - 1];
    }
  }

  function FullRows(g: seq<seq<bool>>): seq<int>
  {
    FullRowsBelow(g, |g|)
  }

  /** `full_rows` lists exactly the full rows of `g`, ascending, and there are `FullCount(g)` of them. */
  lemma FullRowsFacts(g: seq<seq<bool>>)
    ensures |FullRows(g)| == FullCount(g)
    ensures forall y :: y in FullRows(g) <==> 0 <= y < |g| && IsFull(g[y])
    ensures forall i, j :: 0 <= i < j < |FullRows(g)| ==> FullRows(g)[i] < FullRows(g)[j]
    ensures forall i :: 0 <= i < |FullRows(g)| ==> 0 <= FullRows(g)[i] < |g|
  {
    FullRowsBelowFacts(g, |g|);
    assert FullMask(g)[..|g|] == FullMask(g);
  }

  /** The rows whose mask entry is false, in their original order. */
  function Keep<T>(rows: seq<T>, full: seq<bool>): (r: seq<T>)
    requires |rows| == |full|
    ensures |r| == |rows| - CountTrue(full)
  {
    if rows == [] then []
    else
      var n := |rows| - 1;
      Keep(rows[..n], full[..n]) + (if full[n] then [] else [rows[n]])
  }

  /**
   * `apply`'s clear (src/board.rs:375-394): the surviving rows, packed from
   * row 0 upward in their original order, then blank rows up to the top.
   */
  function ClearDown<T>(rows: seq<T>, full: seq<bool>, blank: T): (r: seq<T>)
    requires |rows| == |full|
    ensures |r| == |rows|
  {
    var kept := Keep(rows, full);
    kept + Fill(|rows| - |kept|, blank)
  }

  /**
   * `simulate`'s clear (src/board.rs:131-147): blank rows at the bottom, then
   * the surviving rows in their original order, packed against the top.
   */
  function ClearUp<T>(rows: seq<T>, full: seq<bool>, blank: T): (r: seq<T>)
    requires |rows| == |full|
    ensures |r| == |rows|
  {
    var kept := Keep(rows, full);
    Fill(|rows| - |kept|, blank) + kept
  }

  lemma SliceSplit<T>(s: seq<T>, y: int)
    requires 0 <= y <= |s|
    ensures s == s[..y] + s[y..]
  {
  }

  lemma SliceJoin<T>(s: seq<T>, i: int, j: int)
    requires 0 <= i <= j <= |s|
    ensures s[i..] == s[i..j] + s[j..]
  {
  }

  lemma SliceAround<T>(s: seq<T>, i: int, j: int)
    requires 0 <= i < j <= |s|
    ensures s[..j] == s[..i] + ([s[i]] + s[i + 1..j])
  {
  }

  lemma SliceCons<T>(s: seq<T>, y: int)
    requires 0 <= y < |s|
    ensures s[y..] == [s[y]] + s[y + 1..]
  {
  }

  /** Dropping the last element of `a + b`, for a non-empty `b`. */
  lemma InitAppend<T>(a: seq<T>, b: seq<T>)
    requires b != []
    ensures (a + b)[..|a + b| - 1] == a + b[..|b| - 1]
    ensures (a + b)[|a + b| - 1] == b[|b| - 1]
  {
  }

  lemma {:induction false} CountTrueAppend(a: seq<bool>, b: seq<bool>)
    ensures CountTrue(a + b) == CountTrue(a) + CountTrue(b)
    decreases |b|
  {
    if b == [] {
      assert a + b == a;
    } else {
      var n := |b| - 1;
      InitAppend(a, b);
      CountTrueAppend(a, b[..n]);
    }
  }

  lemma {:induction false} KeepAppend<T>(a: seq<T>, ma: seq<bool>, b: seq<T>, mb: seq<bool>)
    requires |a| == |ma| && |b| == |mb|
    ensures Keep(a + b, ma + mb) == Keep(a, ma) + Keep(b, mb)
    decreases |b|
  {
    if b == [] {
      assert a + b == a && ma + mb == ma;
    } else {
      var n := |b| - 1;
      InitAppend(a, b);
      InitAppend(ma, mb);
      KeepAppend(a, ma, b[..n], mb[..n]);
    }
  }

  /** With no full row, both compactions leave the rows as they are. */
  lemma {:induction false} KeepNone<T>(rows: seq<T>, full: seq<bool>, blank: T)
    requires |rows| == |full| && CountTrue(full) == 0
    ensures Keep(rows, full) == rows
    ensures ClearDown(rows, full, blank) == rows == ClearUp(rows, full, blank)
  {
    if rows != [] {
      var n := |rows| - 1;
      KeepNone(rows[..n], full[..n], blank);
      assert rows == rows[..n] + [rows[n]];
    }
  }

  /** Putting one row in front: it survives unless its mask entry is set. */
  lemma KeepCons<T>(v: T, f: bool, rest: seq<T>, mrest: seq<bool>)
    requires |rest| == |mrest|
    ensures Keep([v] + rest, [f] + mrest) == (if f then [] else [v]) + Keep(rest, mrest)
    ensures CountTrue([f] + mrest) == (if f then 1 else 0) + CountTrue(mrest)
  {
    KeepAppend([v], [f], rest, mrest);
    CountCons(f, mrest);
    assert [v][..0] == [] && [f][..0] == [];
  }

  lemma CountCons(f: bool, m: seq<bool>)
    ensures CountTrue([f] + m) == (if f then 1 else 0) + CountTrue(m)
  {
    CountTrueAppend([f], m);
    assert [f][..0] == [];
  }

  /** Splits the mask at a surviving row `y`: its position among the survivors. */
  lemma KeepSplit<T>(rows: seq<T>, full: seq<bool>, y: int)
    requires |rows| == |full| && 0 <= y < |rows| && !full[y]
    ensures var j := y - CountTrue(full[..y]);
      0 <= j < |Keep(rows, full)| && Keep(rows, full)[j] == rows[y]
    ensures CountTrue(full) == CountTrue(full[..y]) + CountTrue(full[y + 1..])
  {
    SliceSplit(rows, y);
    SliceSplit(full, y);
    KeepAppend(rows[..y], full[..y], rows[y..], full[y..]);
    CountTrueAppend(full[..y], full[y..]);
    SliceCons(rows, y);
    SliceCons(full, y);
    KeepCons(rows[y], full[y], rows[y + 1..], full[y + 1..]);
    var before := Keep(rows[..y], full[..y]);
    assert Keep(rows, full) == before + ([rows[y]] + Keep(rows[y + 1..], full[y + 1..]));
    assert |before| == y - CountTrue(full[..y]);
  }

  /** A false entry at `y1` leaves at most `y2 - y1 - 1` true ones in `[y1, y2)`. */
  lemma CountBetween(full: seq<bool>, y1: int, y2: int)
    requires 0 <= y1 < y2 <= |full| && !full[y1]
    ensures CountTrue(full[..y2]) == CountTrue(full[..y1]) + CountTrue(full[y1 + 1..y2])
    ensures CountTrue(full[y1 + 1..y2]) <= y2 - y1 - 1
  {
    SliceAround(full, y1, y2);
    CountTrueAppend(full[..y1], [full[y1]] + full[y1 + 1..y2]);
    CountCons(full[y1], full[y1 + 1..y2]);
  }

  /**
   * `apply`'s clear: a surviving row `y` drops by the number of full rows
   * beneath it, and the top `k` rows, for `k` full rows, become blank.
   */
  lemma ClearDownMovesRow<T>(rows: seq<T>, full: seq<bool>, blank: T, y: int)
    requires |rows| == |full| && 0 <= y < |rows| && !full[y]
    ensures var j := y - CountTrue(full[..y]);
      0 <= j < |rows| && ClearDown(rows, full, blank)[j] == rows[y]
    ensures forall j :: |rows| - CountTrue(full) <= j < |rows| ==> ClearDown(rows, full, blank)[j] == blank
  {
    KeepSplit(rows, full, y);
  }

  /** `apply`'s clear keeps the relative order of the surviving rows. */
  lemma ClearDownKeepsOrder(full: seq<bool>, y1: int, y2: int)
    requires 0 <= y1 < y2 < |full| && !full[y1] && !full[y2]
    ensures y1 - CountTrue(full[..y1]) < y2 - CountTrue(full[..y2])
  {
    CountBetween(full, y1, y2);
  }

  /**
   * `simulate`'s clear: a surviving row `y` moves up by the number of full
   * rows above it, and the bottom `k` rows, for `k` full rows, become blank.
   */
  lemma ClearUpMovesRow<T>(rows: seq<T>, full: seq<bool>, blank: T, y: int)
    requires |rows| == |full| && 0 <= y < |rows| && !full[y]
    ensures var j := y + CountTrue(full[y + 1..]);
      0 <= j < |rows| && ClearUp(rows, full, blank)[j] == rows[y]
    ensures forall j :: 0 <= j < CountTrue(full) ==> ClearUp(rows, full, blank)[j] == blank
  {
    KeepSplit(rows, full, y);
  }

  /** `simulate`'s clear keeps the relative order of the surviving rows. */
  lemma ClearUpKeepsOrder(full: seq<bool>, y1: int, y2: int)
    requires 0 <= y1 < y2 < |full| && !full[y1] && !full[y2]
    ensures y1 + CountTrue(full[y1 + 1..]) < y2 + CountTrue(full[y2 + 1..])
  {
    CountBetween(full, y1, y2);
    SliceJoin(full, y1 + 1, y2);
    CountTrueAppend(full[y1 + 1..y2], full[y2..]);
    SliceCons(full, y2);
    CountCons(full[y2], full[y2 + 1..]);
  }

  /** Rows above the highest full row stay where they are in `simulate`'s clear. */
  lemma ClearUpKeepsTop<T>(rows: seq<T>, full: seq<bool>, blank: T, y: int)
    requires |rows| == |full| && 0 <= y < |rows|
    requires forall y' :: y <= y' < |rows| ==> !full[y']
    ensures ClearUp(rows, full, blank)[y] == rows[y]
  {
    CountNone(full[y + 1..]);
    ClearUpMovesRow(rows, full, blank, y);
  }

  lemma {:induction false} CountNone(m: seq<bool>)
    requires forall i :: 0 <= i < |m| ==> !m[i]
    ensures CountTrue(m) == 0
  {
    if m != [] {
      CountNone(m[..|m| - 1]);
    }
  }

  /** The survivors keep the width of the rows they come from. */
  lemma {:induction false} KeepWidth<T>(g: seq<seq<T>>, m: seq<bool>)
    requires |g| == |m| && forall y :: 0 <= y < |g| ==> |g[y]| == W
    ensures forall y :: 0 <= y < |Keep(g, m)| ==> |Keep(g, m)[y]| == W
  {
    if g != [] {
      var n := |g| - 1;
      KeepWidth(g[..n], m[..n]);
    }
  }

  /** Both clears turn a board-sized grid into a board-sized grid. */
  lemma ClearedIsGrid<T>(g: seq<seq<T>>, m: seq<bool>, blank: seq<T>)
    requires IsGrid(g) && |m| == H && |blank| == W
    ensures IsGrid(ClearDown(g, m, blank)) && IsGrid(ClearUp(g, m, blank))
  {
    KeepWidth(g, m);
  }

  /** The survivors of a full-row mask are never full. */
  lemma {:induction false} KeepNotFull(g: seq<seq<bool>>, m: seq<bool>)
    requires |g| == |m| && forall y :: 0 <= y < |g| && !m[y] ==> !IsFull(g[y])
    ensures NoFullRow(Keep(g, m))
  {
    if g != [] {
      var n := |g| - 1;
      KeepNotFull(g[..n], m[..n]);
    }
  }

  /** After `apply`'s clear no row is full. */
  lemma ClearDownNoFullRow(g: seq<seq<bool>>)
    ensures NoFullRow(ClearDown(g, FullMask(g), BlankRow()))
  {
    var m := FullMask(g);
    KeepNotFull(g, m);
    var r := ClearDown(g, m, BlankRow());
    var kept := Keep(g, m);
    forall y | 0 <= y < |r| ensures !IsFull(r[y]) {
      if y >= |kept| {
        assert r[y] == BlankRow() && r[y][0] == false;
      }
    }
  }

  /** A colour row has a tag exactly where the grid row is occupied. */
  predicate RowColored<T>(row: seq<bool>, colors: seq<Option<T>>)
  {
    |row| == |colors| && forall x :: 0 <= x < |row| ==> (colors[x].Some? <==> row[x])
  }

  predicate Colored<T>(g: seq<seq<bool>>, colors: seq<seq<Option<T>>>)
  {
    |g| == |colors| && forall y :: 0 <= y < |g| ==> RowColored(g[y], colors[y])
  }

  lemma {:induction false} KeepColored<T>(g: seq<seq<bool>>, colors: seq<seq<Option<T>>>, m: seq<bool>)
    requires |g| == |m| && Colored(g, colors)
    ensures Colored(Keep(g, m), Keep(colors, m))
  {
    if g != [] {
      var n := |g| - 1;
      KeepColored(g[..n], colors[..n], m[..n]);
      if !m[n] {
        assert RowColored(g[n], colors[n]);
        ColoredAppend(Keep(g[..n], m[..n]), Keep(colors[..n], m[..n]), [g[n]], [colors[n]]);
      }
    }
  }

  lemma ColoredAppend<T>(a: seq<seq<bool>>, ca: seq<seq<Option<T>>>, b: seq<seq<bool>>, cb: seq<seq<Option<T>>>)
    requires Colored(a, ca) && Colored(b, cb)
    ensures Colored(a + b, ca + cb)
  {
    forall y | 0 <= y < |a + b| ensures RowColored((a + b)[y], (ca + cb)[y]) {
      if y >= |a| {
        assert RowColored(b[y - |a|], cb[y - |a|]);
      }
    }
  }

  /** `apply`'s clear moves each colour row with its grid row. */
  lemma ClearDownColored<T>(g: seq<seq<bool>>, colors: seq<seq<Option<T>>>)
    requires IsGrid(g) && Colored(g, colors)
    ensures Colored(ClearDown(g, FullMask(g), BlankRow()), ClearDown(colors, FullMask(g), NoneRow()))
  {
    KeepColored(g, colors, FullMask(g));
  }

  // ---------------------------------------------------------------- heights

  /** One past the topmost occupied cell of column `c` among rows `[0, n)`, or 0. */
  function ColumnHeight(g: seq<seq<bool>>, c: int, n: int): (h: int)
    requires IsGrid(g) && 0 <= c < W && 0 <= n <= H
    ensures 0 <= h <= n
  {
    if n == 0 then 0 else if g[n - 1][c] then n else ColumnHeight(g, c, n - 1)
  }

  /** The `heights` array a grid calls for. */
  function HeightsOf(g: seq<seq<bool>>): (hs: seq<int>)
    requires IsGrid(g)
    ensures |hs| == W && forall c :: 0 <= c < W ==> 0 <= hs[c] <= H
  {
    seq(W, c requires 0 <= c < W => ColumnHeight(g, c, H))
  }

  /** The column height is the row after the topmost occupied cell. */
  lemma {:induction false} ColumnHeightIsTop(g: seq<seq<bool>>, c: int, n: int)
    requires IsGrid(g) && 0 <= c < W && 0 <= n <= H
    ensures var h := ColumnHeight(g, c, n);
      (h > 0 ==> g[h - 1][c]) && forall y :: h <= y < n ==> !g[y][c]
  {
    if n > 0 && !g[n - 1][c] {
      ColumnHeightIsTop(g, c, n - 1);
    }
  }

  /** ... and it is the only value with that property. */
  lemma ColumnHeightUnique(g: seq<seq<bool>>, c: int, n: int, t: int)
    requires IsGrid(g) && 0 <= c < W && 0 <= n <= H && 0 <= t <= n
    requires t > 0 ==> g[t - 1][c]
    requires forall y :: t <= y < n ==> !g[y][c]
    ensures ColumnHeight(g, c, n) == t
  {
    ColumnHeightIsTop(g, c, n);
  }

  lemma BlankHeights()
    ensures HeightsOf(BlankGrid()) == Fill(W, 0)
  {
    var g := BlankGrid();
    forall c | 0 <= c < W ensures ColumnHeight(g, c, H) == 0 {
      ColumnHeightUnique(g, c, H, 0);
    }
  }

  // ---------------------------------------------------------- single cells

  function SetCell(g: seq<seq<bool>>, b: Cell): (r: seq<seq<bool>>)
    requires IsGrid(g) && OnBoard(b)
    ensures IsGrid(r)
  {
    g[b.y := g[b.y][b.x := true]]
  }

  function PaintCell<T>(colors: seq<seq<Option<T>>>, b: Cell, tag: T): (r: seq<seq<Option<T>>>)
    requires IsGrid(colors) && OnBoard(b)
    ensures IsGrid(r)
  {
    colors[b.y := colors[b.y][b.x := Some(tag)]]
  }

  /** Occupying cell `(y, x)` raises column `x` to at least `y + 1` and leaves the others. */
  lemma SetCellHeights(g: seq<seq<bool>>, b: Cell)
    requires IsGrid(g) && OnBoard(b)
    ensures var hs := HeightsOf(g);
      HeightsOf(SetCell(g, b)) == hs[b.x := if hs[b.x] < b.y + 1 then b.y + 1 else hs[b.x]]
  {
    var g' := SetCell(g, b);
    var hs := HeightsOf(g);
    var t := if hs[b.x] < b.y + 1 then b.y + 1 else hs[b.x];
    ColumnHeightIsTop(g, b.x, H);
    ColumnHeightUnique(g', b.x, H, t);
    forall c | 0 <= c < W && c != b.x ensures ColumnHeight(g', c, H) == hs[c] {
      ColumnHeightIsTop(g, c, H);
      ColumnHeightUnique(g', c, H, hs[c]);
    }
  }

  lemma SetCellColored<T>(g: seq<seq<bool>>, colors: seq<seq<Option<T>>>, b: Cell, tag: T)
    requires IsGrid(g) && IsGrid(colors) && OnBoard(b) && Colored(g, colors)
    ensures Colored(SetCell(g, b), PaintCell(colors, b, tag))
  {
  }

  // ------------------------------------------------------------ cell counts

  /** The number of occupied cells. */
  function CellCount(g: seq<seq<bool>>): nat
  {
    if g == [] then 0 else CellCount(g[..|g| - 1]) + CountTrue(g[|g| - 1])
  }

  lemma {:induction false} CellCountAppend(a: seq<seq<bool>>, b: seq<seq<bool>>)
    ensures CellCount(a + b) == CellCount(a) + CellCount(b)
    decreases |b|
  {
    if b == [] {
      assert a + b == a;
    } else {
      var n := |b| - 1;
      assert (a + b)[..|a + b| - 1] == a + b[..n];
      CellCountAppend(a, b[..n]);
    }
  }

  lemma {:induction false} RowCountFull(row: seq<bool>)
    requires IsFull(row)
    ensures CountTrue(row) == |row|
  {
    if row != [] {
      RowCountFull(row[..|row| - 1]);
    }
  }

  lemma {:induction false} CellCountBlank(k: nat)
    ensures CellCount(Fill(k, BlankRow())) == 0
  {
    if k > 0 {
      assert Fill(k, BlankRow())[..k - 1] == Fill(k - 1, BlankRow());
      CellCountBlank(k - 1);
      CountNone(BlankRow());
    }
  }

  lemma {:induction false} KeepCellCount(g: seq<seq<bool>>, m: seq<bool>)
    requires |g| == |m| && forall y :: 0 <= y < |g| ==> |g[y]| == W
    requires forall y :: 0 <= y < |g| && m[y] ==> IsFull(g[y])
    ensures CellCount(Keep(g, m)) + W * CountTrue(m) == CellCount(g)
  {
    if g != [] {
      var n := |g| - 1;
      KeepCellCount(g[..n], m[..n]);
      assert CellCount(g) == CellCount(g[..n]) + CountTrue(g[n]);
      if m[n] {
        RowCountFull(g[n]);
        assert Keep(g, m) == Keep(g[..n], m[..n]) + [];
        assert Keep(g, m) == Keep(g[..n], m[..n]);
        assert CountTrue(m) == CountTrue(m[..n]) + 1;
        assert CountTrue(g[n]) == W;
        assert W * CountTrue(m) == W * CountTrue(m[..n]) + W;
      } else {
        CellCountAppend(Keep(g[..n], m[..n]), [g[n]]);
        assert [g[n]][..0] == [];
      }
    }
  }

  /** `apply`'s clear removes exactly `W` occupied cells per full row. */
  lemma ClearDownCellCount(g: seq<seq<bool>>)
    requires IsGrid(g)
    ensures CellCount(ClearDown(g, FullMask(g), BlankRow())) == CellCount(g) - W * FullCount(g)
  {
    var m := FullMask(g);
    var kept := Keep(g, m);
    KeepCellCount(g, m);
    CellCountAppend(kept, Fill(|g| - |kept|, BlankRow()));
    CellCountBlank(|g| - |kept|);
  }

  lemma {:induction false} RowCountSet(row: seq<bool>, x: int)
    requires 0 <= x < |row| && !row[x]
    ensures CountTrue(row[x := true]) == CountTrue(row) + 1
  {
    var n := |row| - 1;
    if x < n {
      assert row[x := true][..n] == row[..n][x := true];
      RowCountSet(row[..n], x);
    } else {
      assert row[x := true][..n] == row[..n];
    }
  }

  lemma {:induction false} CellCountSetRow(g: seq<seq<bool>>, y: int, row: seq<bool>)
    requires 0 <= y < |g|
    ensures CellCount(g[y := row]) + CountTrue(g[y]) == CellCount(g) + CountTrue(row)
  {
    var n := |g| - 1;
    if y < n {
      assert g[y := row][..n] == g[..n][y := row];
      CellCountSetRow(g[..n], y, row);
    } else {
      assert g[y := row][..n] == g[..n];
    }
  }

  /** Occupying an empty cell adds one occupied cell. */
  lemma SetCellCount(g: seq<seq<bool>>, b: Cell)
    requires IsGrid(g) && OnBoard(b) && !g[b.y][b.x]
    ensures CellCount(SetCell(g, b)) == CellCount(g) + 1
  {
    RowCountSet(g[b.y], b.x);
    CellCountSetRow(g, b.y, g[b.y][b.x := true]);
  }
}
