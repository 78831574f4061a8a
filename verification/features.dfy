/**
 * Features 0-8 of the feature vector `simulate` computes for a trial
 * placement (src/board.rs:161-290), as the integers they are counted in,
 * and the integer sum of the column heights (src/board.rs:293-294), the one
 * input of the floating-point features 9-12. Each has a specification
 * function and a method with the source's counting loop, proved equal to
 * it; the lemmas at the end state their bounds.
 */
module Features {
  import opened Wrappers
  import opened Grid

  datatype Features = Features(
    landingHeight: int,
    erodedCells: int,
    rowTransitions: int,
    columnTransitions: int,
    holes: int,
    wells: int,
    holeDepth: int,
    rowsWithHoles: int,
    diversity: int,
    heightSum: int)

  function Abs(n: int): nat
  {
    if n < 0 then -n else n
  }

  function Min(a: int, b: int): int
  {
    if a < b then a else b
  }

  // ------------------------------------------------------ 0. landing height

  /** The highest row a block occupies, or 0 when there is no block. */
  function HighestRow(bs: seq<Cell>): (r: int)
    requires forall k :: 0 <= k < |bs| ==> bs[k].y >= 0
    ensures bs == [] ==> r == 0
    ensures forall k :: 0 <= k < |bs| ==> bs[k].y <= r
    ensures bs != [] ==> exists k :: 0 <= k < |bs| && bs[k].y == r
  {
    if bs == [] then 0
    else
      var r := HighestRow(bs[..|bs| - 1]);
      var y := bs[|bs| - 1].y;
      if y > r then y else r
  }

  /** `landing_height`: the max of the blocks' rows, `unwrap_or(0)`. */
  method FindLandingHeight(blocks: seq<Cell>) returns (r: int)
    requires forall k :: 0 <= k < |blocks| ==> blocks[k].y >= 0
    ensures r == HighestRow(blocks)
  {
    r := 0;
    for k := 0 to |blocks|
      invariant r == HighestRow(blocks[..k])
    {
      assert blocks[..k + 1][..k] == blocks[..k];
      if blocks[k].y > r {
        r := blocks[k].y;
      }
    }
    assert blocks[..|blocks|] == blocks;
  }

  // -------------------------------------------------------- 1. eroded cells

  /** The number of blocks that lie in a row whose mask entry is true. */
  function ErodedCount(bs: seq<Cell>, full: seq<bool>): (n: nat)
    requires forall k :: 0 <= k < |bs| ==> 0 <= bs[k].y < |full|
    ensures n <= |bs|
  {
    if bs == [] then 0
    else ErodedCount(bs[..|bs| - 1], full) + (if full[bs[|bs| - 1].y] then 1 else 0)
  }

  /** `eroded_piece_cells`: blocks in cleared rows, times the rows cleared. */
  method CountEroded(blocks: seq<Cell>, fullRows: seq<int>, cleared: int, ghost full: seq<bool>) returns (r: int)
    requires forall k :: 0 <= k < |blocks| ==> 0 <= blocks[k].y < |full|
    requires forall y :: 0 <= y < |full| ==> (y in fullRows <==> full[y])
    ensures r == ErodedCount(blocks, full) * cleared
  {
    var eroded := 0;
    for k := 0 to |blocks|
      invariant eroded == ErodedCount(blocks[..k], full)
    {
      assert blocks[..k + 1][..k] == blocks[..k];
      if blocks[k].y in fullRows {
        eroded := eroded + 1;
      }
    }
    assert blocks[..|blocks|] == blocks;
    r := eroded * cleared;
  }

  // ------------------------------------------------------- 2, 3. transitions

  /**
   * Occupancy changes met walking along `s` from a cell in state `prev`, with
   * a filled wall after the last cell.
   */
  function Transitions(prev: bool, s: seq<bool>): nat
    decreases |s|
  {
    if s == [] then (if prev then 0 else 1)
    else (if s[0] != prev then 1 else 0) + Transitions(s[0], s[1..])
  }

  function RowTransitionsUpTo(g: seq<seq<bool>>, n: int): nat
    requires IsGrid(g) && 0 <= n <= H
  {
    if n == 0 then 0 else RowTransitionsUpTo(g, n - 1) + Transitions(true, g[n - 1])
  }

  /** `row_transitions`: both side walls count as filled. */
  function RowTransitions(g: seq<seq<bool>>): nat
    requires IsGrid(g)
  {
    RowTransitionsUpTo(g, H)
  }

  function Column(g: seq<seq<bool>>, x: int): (col: seq<bool>)
    requires IsGrid(g) && 0 <= x < W
    ensures |col| == H && forall y :: 0 <= y < H ==> col[y] == g[y][x]
  {
    seq(H, y requires 0 <= y < H => g[y][x])
  }

  function ColumnTransitionsUpTo(g: seq<seq<bool>>, n: int): nat
    requires IsGrid(g) && 0 <= n <= W
  {
    if n == 0 then 0 else ColumnTransitionsUpTo(g, n - 1) + Transitions(true, Column(g, n - 1))
  }

  /** `column_transitions`: the floor and the space above the top row count as filled. */
  function ColumnTransitions(g: seq<seq<bool>>): nat
    requires IsGrid(g)
  {
    ColumnTransitionsUpTo(g, W)
  }

  method CountRowTransitions(g: seq<seq<bool>>) returns (total: int)
    requires IsGrid(g)
    ensures total == RowTransitions(g)
  {
    total := 0;
    for y := 0 to H
      invariant total == RowTransitionsUpTo(g, y)
    {
      var row := g[y];
      var prev := true;
      var cnt := 0;
      assert row[0..] == row;
      for x := 0 to W
        invariant cnt + Transitions(prev, row[x..]) == Transitions(true, row)
      {
        var curr := row[x];
        assert row[x..][1..] == row[x + 1..];
        if curr != prev {
          cnt := cnt + 1;
        }
        prev := curr;
      }
      if !prev {
        cnt := cnt + 1;
      }
      total := total + cnt;
    }
  }

  method CountColumnTransitions(g: seq<seq<bool>>) returns (total: int)
    requires IsGrid(g)
    ensures total == ColumnTransitions(g)
  {
    total := 0;
    for x := 0 to W
      invariant total == ColumnTransitionsUpTo(g, x)
    {
      ghost var col := Column(g, x);
      var prev := true;
      var cnt := 0;
      assert col[0..] == col;
      for y := 0 to H
        invariant cnt + Transitions(prev, col[y..]) == Transitions(true, col)
      {
        var curr := g[y][x];
        assert col[y..][1..] == col[y + 1..];
        if curr != prev {
          cnt := cnt + 1;
        }
        prev := curr;
      }
      if !prev {
        cnt := cnt + 1;
      }
      total := total + cnt;
    }
  }

  // --------------------------------------------------------------- 4. holes

  /** Empty cells of column `x` among rows `[0, n)`. */
  function EmptyBelow(g: seq<seq<bool>>, x: int, n: int): (r: nat)
    requires IsGrid(g) && 0 <= x < W && 0 <= n <= H
    ensures r <= n
  {
    if n == 0 then 0 else EmptyBelow(g, x, n - 1) + (if g[n - 1][x] then 0 else 1)
  }

  /** Empty cells of column `x` strictly below its topmost occupied cell. */
  function ColumnHoles(g: seq<seq<bool>>, x: int): nat
    requires IsGrid(g) && 0 <= x < W
  {
    var h := ColumnHeight(g, x, H);
    if h == 0 then 0 else EmptyBelow(g, x, h - 1)
  }

  function HolesUpTo(g: seq<seq<bool>>, n: int): nat
    requires IsGrid(g) && 0 <= n <= W
  {
    if n == 0 then 0 else HolesUpTo(g, n - 1) + ColumnHoles(g, n - 1)
  }

  /** `holes`, measured against each column's own topmost occupied cell. */
  function Holes(g: seq<seq<bool>>): nat
    requires IsGrid(g)
  {
    HolesUpTo(g, W)
  }

  /** The search for `top`: the topmost occupied row of column `x`, if any. */
  method FindTop(g: seq<seq<bool>>, x: int) returns (top: Option<int>)
    requires IsGrid(g) && 0 <= x < W
    ensures var h := ColumnHeight(g, x, H); top == if h == 0 then None else Some(h - 1)
  {
    top := None;
    for y := H downto 0
      invariant forall y' :: y <= y' < H ==> !g[y'][x]
    {
      if g[y][x] {
        top := Some(y);
        ColumnHeightUnique(g, x, H, y + 1);
        return;
      }
    }
    ColumnHeightUnique(g, x, H, 0);
  }

  method CountHoles(g: seq<seq<bool>>) returns (holes: int)
    requires IsGrid(g)
    ensures holes == Holes(g)
  {
    holes := 0;
    for x := 0 to W
      invariant holes == HolesUpTo(g, x)
    {
      var top := FindTop(g, x);
      if top.Some? {
        var topY := top.value;
        for y := 0 to topY
          invariant holes == HolesUpTo(g, x) + EmptyBelow(g, x, y)
        {
          if !g[y][x] {
            holes := holes + 1;
          }
        }
      }
    }
  }

  // --------------------------------------------------------------- 5. wells

  /**
   * The depth of column `x` as a well: how far it lies below the lower of
   * its neighbours when it is strictly below both. A missing neighbour takes
   * the column's own height, so the edge columns are never wells.
   */
  function WellAt(hs: seq<int>, x: int): (r: int)
    requires |hs| == W && 0 <= x < W
    ensures r >= 0
    ensures x == 0 || x == W - 1 ==> r == 0
    ensures r > 0 <==> 0 < x < W - 1 && hs[x] < hs[x - 1] && hs[x] < hs[x + 1]
    ensures r > 0 ==> r == Min(hs[x - 1], hs[x + 1]) - hs[x]
  {
    var left := if x > 0 then hs[x - 1] else hs[x];
    var right := if x < W - 1 then hs[x + 1] else hs[x];
    if hs[x] < left && hs[x] < right then Min(left, right) - hs[x] else 0
  }

  function WellsUpTo(hs: seq<int>, n: int): int
    requires |hs| == W && 0 <= n <= W
  {
    if n == 0 then 0 else WellsUpTo(hs, n - 1) + WellAt(hs, n - 1)
  }

  /** `board_wells` */
  function Wells(hs: seq<int>): int
    requires |hs| == W
  {
    WellsUpTo(hs, W)
  }

  method SumWells(hs: seq<int>) returns (wells: int)
    requires |hs| == W
    ensures wells == Wells(hs)
  {
    wells := 0;
    for x := 0 to W
      invariant wells == WellsUpTo(hs, x)
    {
      var left := if x > 0 then hs[x - 1] else hs[x];
      var right := if x < W - 1 then hs[x + 1] else hs[x];
      var current := hs[x];
      if current < left && current < right {
        wells := wells + Min(left, right) - current;
      }
    }
  }

  // ---------------------------------------------------------- 6. hole depth

  predicate HeightsInRange(hs: seq<int>)
  {
    |hs| == W && forall c :: 0 <= c < W ==> 0 <= hs[c] <= H
  }

  /** The sum of `h - y` over the empty cells `(y, x)` with `y < n`, where `h = hs[x]`. */
  function ColumnDepth(g: seq<seq<bool>>, hs: seq<int>, x: int, n: int): int
    requires IsGrid(g) && HeightsInRange(hs) && 0 <= x < W && 0 <= n <= H
  {
    if n == 0 then 0
    else ColumnDepth(g, hs, x, n - 1) + (if g[n - 1][x] then 0 else hs[x] - (n - 1))
  }

  function HoleDepthUpTo(g: seq<seq<bool>>, hs: seq<int>, n: int): int
    requires IsGrid(g) && HeightsInRange(hs) && 0 <= n <= W
  {
    if n == 0 then 0 else HoleDepthUpTo(g, hs, n - 1) + ColumnDepth(g, hs, n - 1, hs[n - 1])
  }

  /** `hole_depth`, measured against the given heights. */
  function HoleDepth(g: seq<seq<bool>>, hs: seq<int>): int
    requires IsGrid(g) && HeightsInRange(hs)
  {
    HoleDepthUpTo(g, hs, W)
  }

  method SumHoleDepth(g: seq<seq<bool>>, hs: seq<int>) returns (depth: int)
    requires IsGrid(g) && HeightsInRange(hs)
    ensures depth == HoleDepth(g, hs)
  {
    depth := 0;
    for x := 0 to W
      invariant depth == HoleDepthUpTo(g, hs, x)
    {
      var currentH := hs[x];
      for y := 0 to currentH
        invariant depth == HoleDepthUpTo(g, hs, x) + ColumnDepth(g, hs, x, y)
      {
        if !g[y][x] {
          depth := depth + currentH - y;
        }
      }
    }
  }

  // ----------------------------------------------------- 7. rows with holes

  /** Cell `(y, x)` is empty and below the height of its column. */
  predicate HoleAt(g: seq<seq<bool>>, hs: seq<int>, y: int, x: int)
    requires IsGrid(g) && |hs| == W && 0 <= y < H && 0 <= x < W
  {
    !g[y][x] && hs[x] > y
  }

  predicate RowHasHole(g: seq<seq<bool>>, hs: seq<int>, y: int)
    requires IsGrid(g) && |hs| == W && 0 <= y < H
  {
    exists x :: 0 <= x < W && HoleAt(g, hs, y, x)
  }

  function RowsWithHolesUpTo(g: seq<seq<bool>>, hs: seq<int>, n: int): (r: nat)
    requires IsGrid(g) && |hs| == W && 0 <= n <= H
    ensures r <= n
  {
    if n == 0 then 0 else RowsWithHolesUpTo(g, hs, n - 1) + (if RowHasHole(g, hs, n - 1) then 1 else 0)
  }

  /** `rows_with_holes`, measured against the given heights. */
  function RowsWithHoles(g: seq<seq<bool>>, hs: seq<int>): nat
    requires IsGrid(g) && |hs| == W
  {
    RowsWithHolesUpTo(g, hs, H)
  }

  method CountRowsWithHoles(g: seq<seq<bool>>, hs: seq<int>) returns (count: int)
    requires IsGrid(g) && |hs| == W
    ensures count == RowsWithHoles(g, hs)
  {
    count := 0;
    for y := 0 to H
      invariant count == RowsWithHolesUpTo(g, hs, y)
    {
      var hasHole := false;
      var x := 0;
      while x < W
        invariant 0 <= x <= W
        invariant !hasHole && forall x' :: 0 <= x' < x ==> !HoleAt(g, hs, y, x')
      {
        if !g[y][x] && hs[x] > y {
          assert HoleAt(g, hs, y, x);
          hasHole := true;
          break;
        }
        x := x + 1;
      }
      if hasHole {
        count := count + 1;
      }
    }
  }

  // ----------------------------------------------------------- 8. diversity

  function DiversityUpTo(hs: seq<int>, n: int): nat
    requires |hs| == W && 1 <= n <= W
  {
    if n == 1 then 0 else DiversityUpTo(hs, n - 1) + Abs(hs[n - 1] - hs[n - 2])
  }

  /** `diversity`: the height differences between neighbouring columns, in absolute value. */
  function Diversity(hs: seq<int>): nat
    requires |hs| == W
  {
    DiversityUpTo(hs, W)
  }

  method SumDiversity(hs: seq<int>) returns (diversity: int)
    requires |hs| == W
    ensures diversity == Diversity(hs)
  {
    diversity := 0;
    var prevH := hs[0];
    for x := 1 to W
      invariant diversity == DiversityUpTo(hs, x) && prevH == hs[x - 1]
    {
      diversity := diversity + Abs(hs[x] - prevH);
      prevH := hs[x];
    }
  }

  // ------------------------------------------- 9-12. the height sum of RFB

  function HeightSumUpTo(hs: seq<int>, n: int): int
    requires |hs| == W && 0 <= n <= W
  {
    if n == 0 then 0 else HeightSumUpTo(hs, n - 1) + hs[n - 1]
  }

  /**
   * The sum of the column heights. The four RFB features are Gaussians of
   * its mean `HeightSum(hs) / W`, so they are functions of this integer.
   */
  function HeightSum(hs: seq<int>): int
    requires |hs| == W
  {
    HeightSumUpTo(hs, W)
  }

  method SumHeights(hs: seq<int>) returns (total: int)
    requires |hs| == W
    ensures total == HeightSum(hs)
  {
    total := 0;
    for x := 0 to W
      invariant total == HeightSumUpTo(hs, x)
    {
      total := total + hs[x];
    }
  }

  // ================================================================ bounds

  lemma {:induction false} TransitionsParity(prev: bool, s: seq<bool>)
    ensures Transitions(prev, s) % 2 == (if prev then 0 else 1)
    ensures Transitions(prev, s) <= |s| + 1
    decreases |s|
  {
    if s != [] {
      TransitionsParity(s[0], s[1..]);
    }
  }

  lemma {:induction false} TransitionsUniform(v: bool, s: seq<bool>)
    requires forall i :: 0 <= i < |s| ==> s[i] == v
    ensures Transitions(v, s) == (if v then 0 else 1)
  {
    if s != [] {
      TransitionsUniform(v, s[1..]);
    }
  }

  /**
   * A line of `n` cells between two filled walls changes state an even
   * number of times, at most `n + 1`; an empty line (n > 0) changes twice,
   * a full one never.
   */
  lemma LineTransitions(s: seq<bool>)
    ensures Transitions(true, s) % 2 == 0 && Transitions(true, s) <= |s| + 1
    ensures IsFull(s) ==> Transitions(true, s) == 0
    ensures s != [] && (forall i :: 0 <= i < |s| ==> !s[i]) ==> Transitions(true, s) == 2
  {
    TransitionsParity(true, s);
    if IsFull(s) {
      TransitionsUniform(true, s);
    }
    if s != [] && forall i :: 0 <= i < |s| ==> !s[i] {
      TransitionsUniform(false, s[1..]);
    }
  }

  /**
   * Each row adds an even count of at most `W` = 10 to `row_transitions`,
   * and each column an even count of at most `H + 1` = 16 to
   * `column_transitions`.
   */
  lemma TransitionBounds(g: seq<seq<bool>>)
    requires IsGrid(g)
    ensures forall y :: 0 <= y < H ==> Transitions(true, g[y]) % 2 == 0 && Transitions(true, g[y]) <= W
    ensures forall x :: 0 <= x < W ==>
      Transitions(true, Column(g, x)) % 2 == 0 && Transitions(true, Column(g, x)) <= H + 1
    ensures RowTransitions(g) <= H * W && ColumnTransitions(g) <= W * (H + 1)
  {
    forall y | 0 <= y < H ensures Transitions(true, g[y]) % 2 == 0 && Transitions(true, g[y]) <= W {
      LineTransitions(g[y]);
    }
    forall x | 0 <= x < W ensures Transitions(true, Column(g, x)) % 2 == 0 && Transitions(true, Column(g, x)) <= H + 1 {
      LineTransitions(Column(g, x));
    }
    RowSumBound(g, H);
    ColumnSumBound(g, W);
  }

  lemma {:induction false} RowSumBound(g: seq<seq<bool>>, n: int)
    requires IsGrid(g) && 0 <= n <= H
    requires forall y :: 0 <= y < H ==> Transitions(true, g[y]) <= W
    ensures RowTransitionsUpTo(g, n) <= n * W
  {
    if n > 0 {
      RowSumBound(g, n - 1);
    }
  }

  lemma {:induction false} ColumnSumBound(g: seq<seq<bool>>, n: int)
    requires IsGrid(g) && 0 <= n <= W
    requires forall x :: 0 <= x < W ==> Transitions(true, Column(g, x)) <= H + 1
    ensures ColumnTransitionsUpTo(g, n) <= n * (H + 1)
  {
    if n > 0 {
      ColumnSumBound(g, n - 1);
    }
  }

  // ------------------------------------------------------- hole measures

  /** Holes of column `x` among rows `[0, m)`. */
  function ColumnHoleCount(g: seq<seq<bool>>, hs: seq<int>, x: int, m: int): (r: nat)
    requires IsGrid(g) && |hs| == W && 0 <= x < W && 0 <= m <= H
    ensures r <= m
  {
    if m == 0 then 0 else ColumnHoleCount(g, hs, x, m - 1) + (if HoleAt(g, hs, m - 1, x) then 1 else 0)
  }

  /** Holes of row `y` among columns `[0, n)`. */
  function RowHoleCount(g: seq<seq<bool>>, hs: seq<int>, y: int, n: int): (r: nat)
    requires IsGrid(g) && |hs| == W && 0 <= y < H && 0 <= n <= W
    ensures r <= n
  {
    if n == 0 then 0 else RowHoleCount(g, hs, y, n - 1) + (if HoleAt(g, hs, y, n - 1) then 1 else 0)
  }

  function SumByRows(g: seq<seq<bool>>, hs: seq<int>, m: int, n: int): nat
    requires IsGrid(g) && |hs| == W && 0 <= m <= H && 0 <= n <= W
  {
    if m == 0 then 0 else SumByRows(g, hs, m - 1, n) + RowHoleCount(g, hs, m - 1, n)
  }

  function SumByColumns(g: seq<seq<bool>>, hs: seq<int>, m: int, n: int): nat
    requires IsGrid(g) && |hs| == W && 0 <= m <= H && 0 <= n <= W
  {
    if n == 0 then 0 else SumByColumns(g, hs, m, n - 1) + ColumnHoleCount(g, hs, n - 1, m)
  }

  predicate NoHole(g: seq<seq<bool>>, hs: seq<int>)
    requires IsGrid(g) && |hs| == W
  {
    forall y, x :: 0 <= y < H && 0 <= x < W ==> !HoleAt(g, hs, y, x)
  }

  lemma {:induction false} SumByColumnsEmpty(g: seq<seq<bool>>, hs: seq<int>, n: int)
    requires IsGrid(g) && |hs| == W && 0 <= n <= W
    ensures SumByColumns(g, hs, 0, n) == 0
  {
    if n > 0 {
      SumByColumnsEmpty(g, hs, n - 1);
    }
  }

  lemma {:induction false} SumByColumnsStep(g: seq<seq<bool>>, hs: seq<int>, m: int, n: int)
    requires IsGrid(g) && |hs| == W && 0 <= m < H && 0 <= n <= W
    ensures SumByColumns(g, hs, m + 1, n) == SumByColumns(g, hs, m, n) + RowHoleCount(g, hs, m, n)
  {
    if n > 0 {
      SumByColumnsStep(g, hs, m, n - 1);
    }
  }

  /** Counting the holes row by row or column by column gives the same total. */
  lemma {:induction false} HoleCountTranspose(g: seq<seq<bool>>, hs: seq<int>, m: int, n: int)
    requires IsGrid(g) && |hs| == W && 0 <= m <= H && 0 <= n <= W
    ensures SumByRows(g, hs, m, n) == SumByColumns(g, hs, m, n)
  {
    if m == 0 {
      SumByColumnsEmpty(g, hs, n);
    } else {
      HoleCountTranspose(g, hs, m - 1, n);
      SumByColumnsStep(g, hs, m - 1, n);
    }
  }

  lemma {:induction false} ColumnHoleCountBelow(g: seq<seq<bool>>, hs: seq<int>, x: int, m: int)
    requires IsGrid(g) && HeightsInRange(hs) && 0 <= x < W && 0 <= m <= hs[x]
    ensures ColumnHoleCount(g, hs, x, m) == EmptyBelow(g, x, m)
    ensures ColumnHoleCount(g, hs, x, m) <= ColumnDepth(g, hs, x, m)
  {
    if m > 0 {
      ColumnHoleCountBelow(g, hs, x, m - 1);
    }
  }

  lemma {:induction false} ColumnHoleCountAbove(g: seq<seq<bool>>, hs: seq<int>, x: int, m: int)
    requires IsGrid(g) && HeightsInRange(hs) && 0 <= x < W && hs[x] <= m <= H
    ensures ColumnHoleCount(g, hs, x, m) == ColumnHoleCount(g, hs, x, hs[x])
  {
    if m > hs[x] {
      ColumnHoleCountAbove(g, hs, x, m - 1);
    }
  }

  /** With the grid's own heights, `holes` counts exactly the hole cells. */
  lemma {:induction false} HolesByColumns(g: seq<seq<bool>>, n: int)
    requires IsGrid(g) && 0 <= n <= W
    ensures HolesUpTo(g, n) == SumByColumns(g, HeightsOf(g), H, n)
    ensures HolesUpTo(g, n) <= HoleDepthUpTo(g, HeightsOf(g), n)
  {
    if n > 0 {
      HolesByColumns(g, n - 1);
      var hs := HeightsOf(g);
      var x := n - 1;
      var h := hs[x];
      ColumnHoleCountAbove(g, hs, x, H);
      ColumnHoleCountBelow(g, hs, x, h);
      if h > 0 {
        ColumnHeightIsTop(g, x, H);
        assert EmptyBelow(g, x, h) == EmptyBelow(g, x, h - 1);
      }
    }
  }

  lemma {:induction false} RowsWithHolesAtMostHoles(g: seq<seq<bool>>, hs: seq<int>, m: int)
    requires IsGrid(g) && |hs| == W && 0 <= m <= H
    ensures RowsWithHolesUpTo(g, hs, m) <= SumByRows(g, hs, m, W)
    ensures RowsWithHolesUpTo(g, hs, m) == 0 ==> forall y, x :: 0 <= y < m && 0 <= x < W ==> !HoleAt(g, hs, y, x)
  {
    if m > 0 {
      RowsWithHolesAtMostHoles(g, hs, m - 1);
      var y := m - 1;
      if RowHasHole(g, hs, y) {
        var x :| 0 <= x < W && HoleAt(g, hs, y, x);
        RowHoleCountPositive(g, hs, y, x, W);
      }
    }
  }

  lemma {:induction false} RowHoleCountPositive(g: seq<seq<bool>>, hs: seq<int>, y: int, x: int, n: int)
    requires IsGrid(g) && |hs| == W && 0 <= y < H && 0 <= x < n <= W && HoleAt(g, hs, y, x)
    ensures RowHoleCount(g, hs, y, n) > 0
  {
    if x < n - 1 {
      RowHoleCountPositive(g, hs, y, x, n - 1);
    }
  }

  lemma {:induction false} NoHoleNoDepth(g: seq<seq<bool>>, hs: seq<int>, n: int)
    requires IsGrid(g) && HeightsInRange(hs) && NoHole(g, hs) && 0 <= n <= W
    ensures HoleDepthUpTo(g, hs, n) == 0
  {
    if n > 0 {
      NoHoleNoDepth(g, hs, n - 1);
      NoHoleColumnDepth(g, hs, n - 1, hs[n - 1]);
    }
  }

  lemma {:induction false} NoHoleColumnDepth(g: seq<seq<bool>>, hs: seq<int>, x: int, m: int)
    requires IsGrid(g) && HeightsInRange(hs) && NoHole(g, hs) && 0 <= x < W && 0 <= m <= hs[x]
    ensures ColumnDepth(g, hs, x, m) == 0
  {
    if m > 0 {
      NoHoleColumnDepth(g, hs, x, m - 1);
      assert !HoleAt(g, hs, m - 1, x);
    }
  }

  /**
   * Measured on a grid with its own heights, the three hole features are
   * ordered, `rows_with_holes <= holes <= hole_depth`, and each is zero
   * exactly when no empty cell lies below its column's top.
   */
  lemma HoleMeasures(g: seq<seq<bool>>)
    requires IsGrid(g)
    ensures var hs := HeightsOf(g);
      RowsWithHoles(g, hs) <= Holes(g) <= HoleDepth(g, hs)
    ensures var hs := HeightsOf(g);
      && (Holes(g) == 0 <==> NoHole(g, hs))
      && (HoleDepth(g, hs) == 0 <==> NoHole(g, hs))
      && (RowsWithHoles(g, hs) == 0 <==> NoHole(g, hs))
  {
    var hs := HeightsOf(g);
    HolesByColumns(g, W);
    HoleCountTranspose(g, hs, H, W);
    RowsWithHolesAtMostHoles(g, hs, H);
    if NoHole(g, hs) {
      NoHoleNoDepth(g, hs, W);
    }
  }

  /**
   * `diversity` is zero exactly when every column has the height of the
   * first, and it is never less than the height difference between the
   * first column and the last one.
   */
  lemma {:induction false} DiversityMeasures(hs: seq<int>, n: int)
    requires |hs| == W && 1 <= n <= W
    ensures DiversityUpTo(hs, n) == 0 <==> forall x :: 0 <= x < n ==> hs[x] == hs[0]
    ensures DiversityUpTo(hs, n) >= Abs(hs[n - 1] - hs[0])
  {
    if n > 1 {
      DiversityMeasures(hs, n - 1);
    }
  }

  /**
   * With heights between 0 and `H`, the height sum lies between the lowest
   * and the highest column height times the number of columns, and it is
   * zero exactly when every column is empty.
   */
  lemma {:induction false} HeightSumMeasures(hs: seq<int>, n: int, lo: int, hi: int)
    requires HeightsInRange(hs) && 0 <= n <= W
    requires forall x :: 0 <= x < n ==> lo <= hs[x] <= hi
    ensures n * lo <= HeightSumUpTo(hs, n) <= n * hi
    ensures HeightSumUpTo(hs, n) == 0 <==> forall x :: 0 <= x < n ==> hs[x] == 0
  {
    if n > 0 {
      HeightSumMeasures(hs, n - 1, lo, hi);
      HeightSumMeasures(hs, n - 1, 0, H);
      assert (n - 1) * lo + lo == n * lo && (n - 1) * hi + hi == n * hi;
    }
  }
}
