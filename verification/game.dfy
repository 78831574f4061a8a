/**
 * The greedy move selection of src/main.rs (`simulate_game`, and the same
 * loop in `preview`): for each piece, every rotation and column is tried
 * with `simulate`, the legal ones are scored, the list is stably sorted by
 * score, the first entry is committed with `apply`, and the game ends when
 * no placement is legal.
 *
 * The random piece source becomes an input sequence of pieces, and the
 * floating-point dot product of the features with the weights becomes an
 * integer-valued function `weigh` of the features. The dot product is a
 * function of them (features 9-12 through the height sum), and they take
 * finitely many values, so some `weigh` orders them as it does.
 */
module Game {
  import opened Wrappers
  import opened Grid
  import opened Pieces
  import opened Features
  import opened Trial
  import opened BoardState

  /** An entry of `possible_actions`: `(rotate, x, action_score)`. */
  datatype Action = Action(rotate: int, x: int, score: int)

  /** `a` is a legal placement of `kind` on `g`, scored by `weigh` of its features. */
  predicate IsCandidate(g: seq<seq<bool>>, table: PieceTable, kind: PieceType, weigh: Features -> int, a: Action)
    requires IsGrid(g) && table.Valid()
  {
    && 0 <= a.rotate < 4 && 0 <= a.x
    && Legal(g, HeightsOf(g), table.Get(kind, a.rotate), a.x)
    && a.score == weigh(Outcome(g, table.Get(kind, a.rotate), a.x).1)
  }

  /** Enumeration order: rotation first, then column. */
  predicate Before(a: Action, b: Action)
  {
    a.rotate < b.rotate || (a.rotate == b.rotate && a.x < b.x)
  }

  // ------------------------------------------------------------ enumeration

  /**
   * The enumeration, for any acceptance test `ok` and scoring `value`: the
   * accepted columns `0..x` of rotation `rotate`, in column order.
   */
  function ColumnScan(ok: (int, int) -> bool, value: (int, int) -> int, rotate: int, x: int): seq<Action>
    decreases x
  {
    if x <= 0 then []
    else
      ColumnScan(ok, value, rotate, x - 1) +
      (if ok(rotate, x - 1) then [Action(rotate, x - 1, value(rotate, x - 1))] else [])
  }

  /** Rotations `0..r` in order, rotation `k` over the columns `0..span(k)`. */
  function RotationScan(ok: (int, int) -> bool, value: (int, int) -> int, span: int -> int, r: int): seq<Action>
    decreases r
  {
    if r <= 0 then []
    else RotationScan(ok, value, span, r - 1) + ColumnScan(ok, value, r - 1, span(r - 1))
  }

  /** Only accepted columns below `x` are listed, each with its score. */
  lemma {:induction false} ColumnScanSound(ok: (int, int) -> bool, value: (int, int) -> int, rotate: int, x: int)
    ensures forall i :: 0 <= i < |ColumnScan(ok, value, rotate, x)| ==> Accepted(ColumnScan(ok, value, rotate, x)[i], ok, value)
    ensures forall i :: 0 <= i < |ColumnScan(ok, value, rotate, x)| ==>
      ColumnScan(ok, value, rotate, x)[i].rotate == rotate && 0 <= ColumnScan(ok, value, rotate, x)[i].x < x
    decreases x
  {
    if x > 0 {
      ColumnScanSound(ok, value, rotate, x - 1);
      var prev := ColumnScan(ok, value, rotate, x - 1);
      var cs := ColumnScan(ok, value, rotate, x);
      assert cs == prev + (if ok(rotate, x - 1) then [Action(rotate, x - 1, value(rotate, x - 1))] else []);
      forall i | 0 <= i < |cs| ensures Accepted(cs[i], ok, value) && cs[i].rotate == rotate && 0 <= cs[i].x < x {
        if i < |prev| {
          assert cs[i] == prev[i];
        }
      }
    }
  }

  /** Only accepted placements of rotations below `r` are listed, each with its score. */
  lemma {:induction false} RotationScanSound(ok: (int, int) -> bool, value: (int, int) -> int, span: int -> int, r: int)
    ensures forall i :: 0 <= i < |RotationScan(ok, value, span, r)| ==> Accepted(RotationScan(ok, value, span, r)[i], ok, value)
    ensures forall i :: 0 <= i < |RotationScan(ok, value, span, r)| ==>
      0 <= RotationScan(ok, value, span, r)[i].rotate < r && 0 <= RotationScan(ok, value, span, r)[i].x
    decreases r
  {
    if r > 0 {
      RotationScanSound(ok, value, span, r - 1);
      ColumnScanSound(ok, value, r - 1, span(r - 1));
      var prev := RotationScan(ok, value, span, r - 1);
      var cols := ColumnScan(ok, value, r - 1, span(r - 1));
      var cs := RotationScan(ok, value, span, r);
      assert cs == prev + cols;
      forall i | 0 <= i < |cs| ensures Accepted(cs[i], ok, value) && 0 <= cs[i].rotate < r && 0 <= cs[i].x {
        if i < |prev| {
          assert cs[i] == prev[i];
        } else {
          assert cs[i] == cols[i - |prev|];
        }
      }
    }
  }

  /** `a` passed `ok` and carries its `value`. */
  predicate Accepted(a: Action, ok: (int, int) -> bool, value: (int, int) -> int)
  {
    ok(a.rotate, a.x) && a.score == value(a.rotate, a.x)
  }

  /** Columns are listed in increasing order. */
  lemma {:induction false} ColumnScanOrdered(ok: (int, int) -> bool, value: (int, int) -> int, rotate: int, x: int)
    ensures forall i, j :: 0 <= i < j < |ColumnScan(ok, value, rotate, x)| ==>
      ColumnScan(ok, value, rotate, x)[i].x < ColumnScan(ok, value, rotate, x)[j].x
    decreases x
  {
    if x > 0 {
      ColumnScanOrdered(ok, value, rotate, x - 1);
      ColumnScanSound(ok, value, rotate, x - 1);
      var prev := ColumnScan(ok, value, rotate, x - 1);
      var cs := ColumnScan(ok, value, rotate, x);
      assert cs == prev + (if ok(rotate, x - 1) then [Action(rotate, x - 1, value(rotate, x - 1))] else []);
      forall i, j | 0 <= i < j < |cs| ensures cs[i].x < cs[j].x {
        assert cs[i] == prev[i];
        if j < |prev| {
          assert cs[j] == prev[j];
        }
      }
    }
  }

  /** Placements are listed in enumeration order. */
  lemma {:induction false} RotationScanOrdered(ok: (int, int) -> bool, value: (int, int) -> int, span: int -> int, r: int)
    ensures forall i, j :: 0 <= i < j < |RotationScan(ok, value, span, r)| ==>
      Before(RotationScan(ok, value, span, r)[i], RotationScan(ok, value, span, r)[j])
    decreases r
  {
    if r > 0 {
      RotationScanOrdered(ok, value, span, r - 1);
      ColumnScanOrdered(ok, value, r - 1, span(r - 1));
      RotationScanSound(ok, value, span, r - 1);
      ColumnScanSound(ok, value, r - 1, span(r - 1));
      var prev := RotationScan(ok, value, span, r - 1);
      var cols := ColumnScan(ok, value, r - 1, span(r - 1));
      var cs := RotationScan(ok, value, span, r);
      assert cs == prev + cols;
      forall i, j | 0 <= i < j < |cs| ensures Before(cs[i], cs[j]) {
        if j < |prev| {
          assert cs[i] == prev[i] && cs[j] == prev[j];
        } else if i < |prev| {
          assert cs[i] == prev[i] && cs[j] == cols[j - |prev|];
        } else {
          assert cs[i] == cols[i - |prev|] && cs[j] == cols[j - |prev|];
        }
      }
    }
  }

  /** Rotation `rot` at column `c` appears in `cs`. */
  predicate Listed(cs: seq<Action>, rot: int, c: int)
  {
    exists i :: 0 <= i < |cs| && cs[i].rotate == rot && cs[i].x == c
  }

  /** Every accepted column of rotation `rotate` below `x` is listed. */
  lemma {:induction false} ColumnScanComplete(ok: (int, int) -> bool, value: (int, int) -> int, rotate: int, x: int)
    ensures forall c :: 0 <= c < x && ok(rotate, c) ==> Listed(ColumnScan(ok, value, rotate, x), rotate, c)
    decreases x
  {
    if x > 0 {
      ColumnScanComplete(ok, value, rotate, x - 1);
      var prev := ColumnScan(ok, value, rotate, x - 1);
      var cs := ColumnScan(ok, value, rotate, x);
      assert cs == prev + (if ok(rotate, x - 1) then [Action(rotate, x - 1, value(rotate, x - 1))] else []);
      forall c | 0 <= c < x && ok(rotate, c) ensures Listed(cs, rotate, c) {
        if c == x - 1 {
          assert cs[|cs| - 1].x == c;
        } else {
          assert Listed(prev, rotate, c);
          var i :| 0 <= i < |prev| && prev[i].rotate == rotate && prev[i].x == c;
          assert cs[i] == prev[i];
        }
      }
    }
  }

  /** Every accepted placement of a rotation below `r` inside its column range is listed. */
  lemma {:induction false} RotationScanComplete(ok: (int, int) -> bool, value: (int, int) -> int, span: int -> int, r: int)
    ensures forall rot, c :: 0 <= rot < r && 0 <= c < span(rot) && ok(rot, c) ==> Listed(RotationScan(ok, value, span, r), rot, c)
    decreases r
  {
    if r > 0 {
      RotationScanComplete(ok, value, span, r - 1);
      ColumnScanComplete(ok, value, r - 1, span(r - 1));
      var prev := RotationScan(ok, value, span, r - 1);
      var cols := ColumnScan(ok, value, r - 1, span(r - 1));
      var cs := RotationScan(ok, value, span, r);
      assert cs == prev + cols;
      forall rot, c | 0 <= rot < r && 0 <= c < span(rot) && ok(rot, c) ensures Listed(cs, rot, c) {
        if rot == r - 1 {
          assert Listed(cols, rot, c);
          var i :| 0 <= i < |cols| && cols[i].rotate == rot && cols[i].x == c;
          assert cs[|prev| + i] == cols[i];
        } else {
          assert Listed(prev, rot, c);
          var i :| 0 <= i < |prev| && prev[i].rotate == rot && prev[i].x == c;
          assert cs[i] == prev[i];
        }
      }
    }
  }

  /** `simulate` accepts rotation `r` at column `x`. */
  function Accepts(g: seq<seq<bool>>, table: PieceTable, kind: PieceType): (int, int) -> bool
    requires IsGrid(g) && table.Valid()
  {
    (r, x) => 0 <= r < 4 && 0 <= x && Legal(g, HeightsOf(g), table.Get(kind, r), x)
  }

  /** `action_score`: the weighted features `simulate` reports. */
  function Weighed(g: seq<seq<bool>>, table: PieceTable, kind: PieceType, weigh: Features -> int): (int, int) -> int
    requires IsGrid(g) && table.Valid()
  {
    (r, x) => if 0 <= r < 4 && 0 <= x && Legal(g, HeightsOf(g), table.Get(kind, r), x)
      then weigh(Outcome(g, table.Get(kind, r), x).1) else 0
  }

  /** The column range `0..=BOARD_WIDTH - p.width` of each rotation. */
  function Span(table: PieceTable, kind: PieceType): int -> int
    requires table.Valid()
  {
    r => if 0 <= r < 4 then W - table.Get(kind, r).width + 1 else 0
  }

  /** `possible_actions` after the two enumeration loops. */
  function Candidates(g: seq<seq<bool>>, table: PieceTable, kind: PieceType, weigh: Features -> int): seq<Action>
    requires IsGrid(g) && table.Valid()
  {
    RotationScan(Accepts(g, table, kind), Weighed(g, table, kind, weigh), Span(table, kind), 4)
  }

  /**
   * `possible_actions` holds exactly the legal placements, each once and
   * with its weighted score, in enumeration order: rotation 0..3 outside,
   * column inside. Every entry passes the bounds check, since legality
   * includes `x + width <= 10`.
   */
  lemma CandidatesSpec(g: seq<seq<bool>>, table: PieceTable, kind: PieceType, weigh: Features -> int)
    requires IsGrid(g) && table.Valid()
    ensures var cs := Candidates(g, table, kind, weigh);
      && (forall i :: 0 <= i < |cs| ==> IsCandidate(g, table, kind, weigh, cs[i]))
      && (forall i :: 0 <= i < |cs| ==> cs[i].x + table.Get(kind, cs[i].rotate).width <= W)
      && (forall i, j :: 0 <= i < j < |cs| ==> Before(cs[i], cs[j]))
      && (forall rot, c :: 0 <= rot < 4 && 0 <= c && Legal(g, HeightsOf(g), table.Get(kind, rot), c) ==> Listed(cs, rot, c))
  {
    var ok, value, span := Accepts(g, table, kind), Weighed(g, table, kind, weigh), Span(table, kind);
    RotationScanSound(ok, value, span, 4);
    RotationScanComplete(ok, value, span, 4);
    RotationScanOrdered(ok, value, span, 4);
    var cs := Candidates(g, table, kind, weigh);
    forall i | 0 <= i < |cs| ensures IsCandidate(g, table, kind, weigh, cs[i]) {
      assert Accepted(cs[i], ok, value);
    }
    forall rot, c | 0 <= rot < 4 && 0 <= c && Legal(g, HeightsOf(g), table.Get(kind, rot), c)
      ensures 0 <= c < span(rot) && ok(rot, c)
    {
    }
  }

  /** The two enumeration loops, calling `simulate` on the unchanged board. */
  method ListCandidates(board: Board, table: PieceTable, kind: PieceType, weigh: Features -> int) returns (actions: seq<Action>)
    requires board.Valid() && table.Valid()
    ensures actions == Candidates(board.Cells, table, kind, weigh)
  {
    actions := [];
    for rotate := 0 to 4
      invariant actions == RotationScan(Accepts(board.Cells, table, kind), Weighed(board.Cells, table, kind, weigh), Span(table, kind), rotate)
    {
      var cols := ListColumns(board, table, kind, weigh, rotate);
      actions := actions + cols;
    }
  }

  /** The inner loop: columns `0..=BOARD_WIDTH - p.width` of one rotation. */
  method ListColumns(board: Board, table: PieceTable, kind: PieceType, weigh: Features -> int, rotate: int) returns (cols: seq<Action>)
    requires board.Valid() && table.Valid() && 0 <= rotate < 4
    ensures cols == ColumnScan(Accepts(board.Cells, table, kind), Weighed(board.Cells, table, kind, weigh), rotate, Span(table, kind)(rotate))
  {
    var p := table.Get(kind, rotate);
    cols := [];
    for x := 0 to W - p.width + 1
      invariant cols == ColumnScan(Accepts(board.Cells, table, kind), Weighed(board.Cells, table, kind, weigh), rotate, x)
    {
      cols := TryColumn(board, table, kind, weigh, rotate, x, cols);
    }
  }

  /** The body of the inner loop: keep `(rotate, x, action_score)` when `simulate` accepts. */
  method TryColumn(board: Board, table: PieceTable, kind: PieceType, weigh: Features -> int, rotate: int, x: int, cols: seq<Action>)
      returns (cols': seq<Action>)
    requires board.Valid() && table.Valid() && 0 <= rotate < 4 && 0 <= x
    requires cols == ColumnScan(Accepts(board.Cells, table, kind), Weighed(board.Cells, table, kind, weigh), rotate, x)
    ensures cols' == ColumnScan(Accepts(board.Cells, table, kind), Weighed(board.Cells, table, kind, weigh), rotate, x + 1)
  {
    var r := board.Simulate(table, kind, x, rotate);
    ScanStep(board.Cells, table, kind, weigh, rotate, x, r);
    cols' := cols;
    if r.Some? {
      cols' := cols + [Action(rotate, x, weigh(r.value.1))];
    }
  }

  /** One column of the inner loop: what `simulate` returns extends the scan. */
  lemma ScanStep(g: seq<seq<bool>>, table: PieceTable, kind: PieceType, weigh: Features -> int, rotate: int, x: int, r: Option<(int, Features)>)
    requires IsGrid(g) && table.Valid() && 0 <= rotate < 4 && 0 <= x
    requires r.None? <==> !Legal(g, HeightsOf(g), table.Get(kind, rotate), x)
    requires r.Some? ==> r.value == Outcome(g, table.Get(kind, rotate), x)
    ensures ColumnScan(Accepts(g, table, kind), Weighed(g, table, kind, weigh), rotate, x + 1)
      == ColumnScan(Accepts(g, table, kind), Weighed(g, table, kind, weigh), rotate, x)
        + (if r.Some? then [Action(rotate, x, weigh(r.value.1))] else [])
  {
  }


  // ------------------------------------------------------------ the sort

  /**
   * `sort_by` on the action score, as a stable insertion sort: `a` goes
   * after every entry of the sorted `t` whose score is not greater.
   */
  function Insert(t: seq<Action>, a: Action): (r: seq<Action>)
    ensures |r| == |t| + 1
    decreases |t|
  {
    if t == [] || t[|t| - 1].score <= a.score then t + [a]
    else Insert(t[..|t| - 1], a) + [t[|t| - 1]]
  }

  function SortByScore(s: seq<Action>): (r: seq<Action>)
    ensures |r| == |s|
  {
    if s == [] then [] else Insert(SortByScore(s[..|s| - 1]), s[|s| - 1])
  }

  predicate SortedByScore(s: seq<Action>)
  {
    forall i, j :: 0 <= i < j < |s| ==> s[i].score <= s[j].score
  }

  /** The entries of `s` scoring `v`, in order. */
  function WithScore(s: seq<Action>, v: int): seq<Action>
  {
    if s == [] then [] else WithScore(s[..|s| - 1], v) + (if s[|s| - 1].score == v then [s[|s| - 1]] else [])
  }

  /** The index of the first entry of least score. */
  function FirstMin(s: seq<Action>): (k: int)
    requires s != []
    ensures 0 <= k < |s|
    ensures forall j :: 0 <= j < |s| ==> s[k].score <= s[j].score
    ensures forall j :: 0 <= j < k ==> s[j].score > s[k].score
  {
    var n := |s| - 1;
    if n == 0 then 0
    else
      var k := FirstMin(s[..n]);
      if s[n].score < s[k].score then n else k
  }

  lemma {:induction false} InsertPermutes(t: seq<Action>, a: Action)
    ensures multiset(Insert(t, a)) == multiset(t) + multiset{a}
    decreases |t|
  {
    if !(t == [] || t[|t| - 1].score <= a.score) {
      var n := |t| - 1;
      InsertPermutes(t[..n], a);
      assert t == t[..n] + [t[n]];
    }
  }

  lemma {:induction false} InsertSorted(t: seq<Action>, a: Action)
    requires SortedByScore(t)
    ensures SortedByScore(Insert(t, a))
    decreases |t|
  {
    if !(t == [] || t[|t| - 1].score <= a.score) {
      var n := |t| - 1;
      var u := Insert(t[..n], a);
      InsertSorted(t[..n], a);
      InsertPermutes(t[..n], a);
      forall i | 0 <= i < |u| ensures u[i].score <= t[n].score {
        assert u[i] in multiset(u);
        if u[i] != a {
          assert u[i] in multiset(t[..n]);
        }
      }
    }
  }

  lemma {:induction false} InsertStable(t: seq<Action>, a: Action, v: int)
    ensures WithScore(Insert(t, a), v) == WithScore(t, v) + (if a.score == v then [a] else [])
    decreases |t|
  {
    var r := Insert(t, a);
    if t == [] || t[|t| - 1].score <= a.score {
      assert r[..|r| - 1] == t;
    } else {
      var n := |t| - 1;
      InsertStable(t[..n], a, v);
      assert r[..|r| - 1] == Insert(t[..n], a);
      assert t[..n] == t[..|t| - 1];
    }
  }

  lemma {:induction false} InsertHead(t: seq<Action>, a: Action)
    requires SortedByScore(t) && t != []
    ensures Insert(t, a)[0] == if a.score < t[0].score then a else t[0]
    decreases |t|
  {
    var n := |t| - 1;
    if !(t[n].score <= a.score) && n > 0 {
      InsertHead(t[..n], a);
    }
  }

  /** The sort is a permutation. */
  lemma {:induction false} SortPermutes(s: seq<Action>)
    ensures multiset(SortByScore(s)) == multiset(s)
  {
    if s != [] {
      var n := |s| - 1;
      SortPermutes(s[..n]);
      InsertPermutes(SortByScore(s[..n]), s[n]);
      assert s == s[..n] + [s[n]];
    }
  }

  /** The sort orders by score. */
  lemma {:induction false} SortSorts(s: seq<Action>)
    ensures SortedByScore(SortByScore(s))
  {
    if s != [] {
      var n := |s| - 1;
      SortSorts(s[..n]);
      InsertSorted(SortByScore(s[..n]), s[n]);
    }
  }

  /** The sort is stable: entries of equal score keep their relative order. */
  lemma {:induction false} SortIsStable(s: seq<Action>, v: int)
    ensures WithScore(SortByScore(s), v) == WithScore(s, v)
  {
    if s != [] {
      var n := |s| - 1;
      SortIsStable(s[..n], v);
      InsertStable(SortByScore(s[..n]), s[n], v);
    }
  }

  /** `possible_actions[0]` after the sort is the first entry of least score. */
  lemma {:induction false} SortHead(s: seq<Action>)
    requires s != []
    ensures SortByScore(s)[0] == s[FirstMin(s)]
  {
    var n := |s| - 1;
    if n > 0 {
      var t := SortByScore(s[..n]);
      SortHead(s[..n]);
      SortSorts(s[..n]);
      InsertHead(t, s[n]);
    }
  }

  // ------------------------------------------------------------ a turn

  /** The action the loop commits for `kind` on grid `g`; `None` ends the game. */
  function Choice(g: seq<seq<bool>>, table: PieceTable, kind: PieceType, weigh: Features -> int): (c: Option<Action>)
    requires IsGrid(g) && table.Valid()
    ensures c.Some? ==> 0 <= c.value.rotate < 4 && 0 <= c.value.x && Legal(g, HeightsOf(g), table.Get(kind, c.value.rotate), c.value.x)
  {
    var cs := Candidates(g, table, kind, weigh);
    if cs == [] then None
    else
      CandidatesSpec(g, table, kind, weigh);
      Some(cs[FirstMin(cs)])
  }

  /** The chosen action is one of the candidates: legal, and scored by its outcome. */
  lemma ChoiceIsCandidate(g: seq<seq<bool>>, table: PieceTable, kind: PieceType, weigh: Features -> int)
    requires IsGrid(g) && table.Valid()
    ensures Choice(g, table, kind, weigh).Some? ==> IsCandidate(g, table, kind, weigh, Choice(g, table, kind, weigh).value)
  {
    var cs := Candidates(g, table, kind, weigh);
    if cs != [] {
      CandidatesSpec(g, table, kind, weigh);
    }
  }

  /** The game ends exactly when no rotation and column is legal for the piece. */
  lemma ChoiceEndsGame(g: seq<seq<bool>>, table: PieceTable, kind: PieceType, weigh: Features -> int)
    requires IsGrid(g) && table.Valid()
    ensures Choice(g, table, kind, weigh).None? <==>
      forall rot, x :: 0 <= rot < 4 && 0 <= x ==> !Legal(g, HeightsOf(g), table.Get(kind, rot), x)
  {
    CandidatesSpec(g, table, kind, weigh);
  }

  /**
   * The chosen placement scores no more than any legal placement, and every
   * legal placement enumerated before it scores strictly more (the stable
   * sort keeps the earliest of equal scores).
   */
  lemma ChoiceIsBest(g: seq<seq<bool>>, table: PieceTable, kind: PieceType, weigh: Features -> int, rot: int, x: int)
    requires IsGrid(g) && table.Valid()
    requires 0 <= rot < 4 && 0 <= x && Legal(g, HeightsOf(g), table.Get(kind, rot), x)
    ensures Choice(g, table, kind, weigh).Some?
    ensures Choice(g, table, kind, weigh).value.score <= weigh(Outcome(g, table.Get(kind, rot), x).1)
    ensures Before(Action(rot, x, 0), Choice(g, table, kind, weigh).value) ==>
      Choice(g, table, kind, weigh).value.score < weigh(Outcome(g, table.Get(kind, rot), x).1)
  {
    var cs := Candidates(g, table, kind, weigh);
    var j := FindCandidate(g, table, kind, weigh, rot, x);
    CandidatesOrdered(g, table, kind, weigh);
    FirstMinBeatsEarlier(cs, j);
  }

  /** A legal placement has its entry among the candidates, scored by its outcome. */
  lemma FindCandidate(g: seq<seq<bool>>, table: PieceTable, kind: PieceType, weigh: Features -> int, rot: int, x: int)
      returns (j: int)
    requires IsGrid(g) && table.Valid()
    requires 0 <= rot < 4 && 0 <= x && Legal(g, HeightsOf(g), table.Get(kind, rot), x)
    ensures 0 <= j < |Candidates(g, table, kind, weigh)|
    ensures Candidates(g, table, kind, weigh)[j] == Action(rot, x, weigh(Outcome(g, table.Get(kind, rot), x).1))
  {
    var cs := Candidates(g, table, kind, weigh);
    CandidatesSpec(g, table, kind, weigh);
    assert Listed(cs, rot, x);
    j :| 0 <= j < |cs| && cs[j].rotate == rot && cs[j].x == x;
    assert IsCandidate(g, table, kind, weigh, cs[j]);
  }

  lemma CandidatesOrdered(g: seq<seq<bool>>, table: PieceTable, kind: PieceType, weigh: Features -> int)
    requires IsGrid(g) && table.Valid()
    ensures forall i, j :: 0 <= i < j < |Candidates(g, table, kind, weigh)| ==>
      Before(Candidates(g, table, kind, weigh)[i], Candidates(g, table, kind, weigh)[j])
  {
    RotationScanOrdered(Accepts(g, table, kind), Weighed(g, table, kind, weigh), Span(table, kind), 4);
  }

  /**
   * In a list in strict enumeration order, the first entry of least score
   * scores strictly less than every entry enumerated before it.
   */
  lemma FirstMinBeatsEarlier(cs: seq<Action>, j: int)
    requires 0 <= j < |cs| && forall i, j :: 0 <= i < j < |cs| ==> Before(cs[i], cs[j])
    ensures Before(cs[j], cs[FirstMin(cs)]) ==> cs[FirstMin(cs)].score < cs[j].score
  {
    var k := FirstMin(cs);
    if k <= j && Before(cs[j], cs[k]) {
      assert false;
    }
  }

  /**
   * The choice inside one iteration of the loop: enumerate the candidates,
   * sort them by score and take the first, or nothing when there is none.
   */
  method ChooseAction(board: Board, table: PieceTable, kind: PieceType, weigh: Features -> int) returns (chosen: Option<Action>)
    requires board.Valid() && table.Valid()
    ensures chosen == Choice(board.Cells, table, kind, weigh)
  {
    var actions := ListCandidates(board, table, kind, weigh);
    if |actions| == 0 {
      return None;
    }
    var sorted := SortByScore(actions);
    SortHead(actions);
    chosen := Some(sorted[0]);
  }

  /**
   * One iteration of the loop: choose, and commit the choice with `apply`,
   * whose `unwrap` cannot fail. `turn` is any turn function that takes the
   * turns `Step` takes; the board and score become what it says, the
   * colour grid is painted and cleared as `apply` does, and with no
   * candidate the board is left as it is.
   */
  method Turn(board: Board, table: PieceTable, kind: PieceType, weigh: Features -> int,
              ghost turn: (seq<seq<bool>>, PieceType) -> Option<Move>) returns (chosen: Option<Action>)
    requires board.Valid() && table.Valid() && Follows(turn, table, weigh)
    modifies board, board.grid, board.colorGrid, board.heights
    ensures board.Valid()
    ensures chosen.None? ==> turn(old(board.Cells), kind).None?
    ensures chosen.None? ==> board.Cells == old(board.Cells) && board.Colors == old(board.Colors) && board.score == old(board.score)
    ensures chosen.Some? ==> turn(old(board.Cells), kind) == Some(Move(chosen.value, board.Cells, board.score - old(board.score)))
    ensures chosen.Some? ==>
      && 0 <= chosen.value.rotate < 4 && 0 <= chosen.value.x
      && Legal(old(board.Cells), HeightsOf(old(board.Cells)), table.Get(kind, chosen.value.rotate), chosen.value.x)
    ensures chosen.Some? ==>
      var p := table.Get(kind, chosen.value.rotate);
      var hs := HeightsOf(old(board.Cells));
      board.Colors == ClearDown(Painted(old(board.Cells), old(board.Colors), hs, p, chosen.value.x, kind.Tag()),
                                   FullMask(Placed(old(board.Cells), hs, p, chosen.value.x)), NoneRow())
  {
    assert turn(board.Cells, kind) == Step(board.Cells, table, kind, weigh);
    chosen := ChooseAction(board, table, kind, weigh);
    if chosen.None? {
      return;
    }
    var best := chosen.value;
    var r := board.Apply(table, kind, best.x, best.rotate);
    assert r.Ok?;
  }

  // ------------------------------------------------------------ the game

  /** A committed turn: the action taken, the grid it leaves and the points it adds. */
  datatype Move = Move(action: Action, next: seq<seq<bool>>, gain: int)

  /**
   * One turn on grid `g`: the chosen action committed with `apply`. A turn
   * leaves a grid with no full row and adds between 0 and 800 points.
   */
  function Step(g: seq<seq<bool>>, table: PieceTable, kind: PieceType, weigh: Features -> int): (m: Option<Move>)
    requires IsGrid(g) && table.Valid()
    ensures m.Some? ==> IsGrid(m.value.next) && NoFullRow(m.value.next) && 0 <= m.value.gain <= 800
  {
    match Choice(g, table, kind, weigh)
    case None => None
    case Some(a) =>
      var p := table.Get(kind, a.rotate);
      Some(Move(a, Committed(g, p, a.x), Gain(g, p, a.x)))
  }

  /** There is a turn exactly when some rotation and column is a legal placement. */
  lemma StepEndsGame(g: seq<seq<bool>>, table: PieceTable, kind: PieceType, weigh: Features -> int)
    requires IsGrid(g) && table.Valid()
    ensures Step(g, table, kind, weigh).None? <==>
      forall rot, x :: 0 <= rot < 4 && 0 <= x ==> !Legal(g, HeightsOf(g), table.Get(kind, rot), x)
  {
    ChoiceEndsGame(g, table, kind, weigh);
  }

  /**
   * The turn function of the game: `Step` on a well-formed grid with a
   * well-formed piece table, and no turn otherwise.
   */
  function Policy(table: PieceTable, weigh: Features -> int): (seq<seq<bool>>, PieceType) -> Option<Move>
  {
    (g, kind) => if IsGrid(g) && table.Valid() then Step(g, table, kind, weigh) else None
  }

  /** `turn` takes the turns `Step` takes, on every well-formed grid. */
  ghost predicate Follows(turn: (seq<seq<bool>>, PieceType) -> Option<Move>, table: PieceTable, weigh: Features -> int)
  {
    forall g, kind {:trigger Step(g, table, kind, weigh)} :: IsGrid(g) && table.Valid() ==> turn(g, kind) == Step(g, table, kind, weigh)
  }

  lemma PolicyFollows(table: PieceTable, weigh: Features -> int)
    ensures Follows(Policy(table, weigh), table, weigh)
  {
  }

  /** Every turn of `turn` adds between 0 and 800 points. */
  ghost predicate Bounded(turn: (seq<seq<bool>>, PieceType) -> Option<Move>)
  {
    forall g, kind :: turn(g, kind).Some? ==> 0 <= turn(g, kind).value.gain <= 800
  }

  lemma PolicyBounded(table: PieceTable, weigh: Features -> int)
    ensures Bounded(Policy(table, weigh))
  {
    forall g, kind | Policy(table, weigh)(g, kind).Some?
      ensures 0 <= Policy(table, weigh)(g, kind).value.gain <= 800
    {
      assert IsGrid(g) && table.Valid();
    }
  }

  /**
   * The game from grid `g` with `score` points and `pieces` still to come,
   * taking turns with `turn`: the actions committed and the final score.
   * The game stops at the first piece with no turn, or when the pieces run
   * out.
   */
  function Play(turn: (seq<seq<bool>>, PieceType) -> Option<Move>, g: seq<seq<bool>>, score: int, pieces: seq<PieceType>): (r: (seq<Action>, int))
    decreases |pieces|
  {
    if pieces == [] then ([], score)
    else
      match turn(g, pieces[0])
      case None => ([], score)
      case Some(m) =>
        var rest := Play(turn, m.next, score + m.gain, pieces[1..]);
        ([m.action] + rest.0, rest.1)
  }

  /**
   * The score never decreases: each committed piece adds between 0 and 800
   * points, and at most one piece is committed per piece drawn.
   */
  lemma {:induction false} PlayScore(turn: (seq<seq<bool>>, PieceType) -> Option<Move>, g: seq<seq<bool>>, score: int, pieces: seq<PieceType>)
    requires Bounded(turn)
    ensures |Play(turn, g, score, pieces).0| <= |pieces|
    ensures score <= Play(turn, g, score, pieces).1 <= score + 800 * |Play(turn, g, score, pieces).0|
    decreases |pieces|
  {
    if pieces != [] {
      var s := turn(g, pieces[0]);
      if s.Some? {
        PlayScore(turn, s.value.next, score + s.value.gain, pieces[1..]);
      }
    }
  }

  /** `simulate_game` returns a score between 0 and 800 points per piece drawn. */
  lemma GameScore(table: PieceTable, weigh: Features -> int, pieces: seq<PieceType>)
    ensures 0 <= Play(Policy(table, weigh), BlankGrid(), 0, pieces).1 <= 800 * |pieces|
  {
    PolicyBounded(table, weigh);
    PlayScore(Policy(table, weigh), BlankGrid(), 0, pieces);
  }

  /** The game after a turn that takes `a` and leaves `next` with `total` points: the game from there, with the next piece. */
  lemma PlayStep(turn: (seq<seq<bool>>, PieceType) -> Option<Move>, g: seq<seq<bool>>, score: int, pieces: seq<PieceType>, i: int,
                 a: Action, next: seq<seq<bool>>, total: int)
    requires 0 <= i < |pieces| && turn(g, pieces[i]) == Some(Move(a, next, total - score))
    ensures Play(turn, g, score, pieces[i..]).1 == Play(turn, next, total, pieces[i + 1..]).1
  {
    assert pieces[i..][0] == pieces[i] && pieces[i..][1..] == pieces[i + 1..];
  }

  /** The game after a turn that finds no legal placement: the score stands. */
  lemma PlayStops(turn: (seq<seq<bool>>, PieceType) -> Option<Move>, g: seq<seq<bool>>, score: int, pieces: seq<PieceType>, i: int)
    requires 0 <= i < |pieces| && turn(g, pieces[i]).None?
    ensures Play(turn, g, score, pieces[i..]).1 == score
  {
    assert pieces[i..][0] == pieces[i];
  }

  /**
   * One pass of `simulate_game`'s loop: take the turn for piece `i`; the
   * game is over when it finds no legal placement, and otherwise the game
   * still to play goes on from the board it leaves. `turn` is the game's
   * turn function, which agrees with `Step` on this board.
   */
  method PlayTurn(board: Board, table: PieceTable, pieces: seq<PieceType>, i: int, weigh: Features -> int,
                  ghost turn: (seq<seq<bool>>, PieceType) -> Option<Move>, ghost total: int)
      returns (over: bool)
    requires board.Valid() && table.Valid() && 0 <= i < |pieces|
    requires Follows(turn, table, weigh)
    requires total == Play(turn, board.Cells, board.score, pieces[i..]).1
    modifies board, board.grid, board.colorGrid, board.heights
    ensures board.Valid()
    ensures over ==> total == board.score
    ensures !over ==> total == Play(turn, board.Cells, board.score, pieces[i + 1..]).1
  {
    ghost var g0, s0 := board.Cells, board.score;
    var chosen := Turn(board, table, pieces[i], weigh, turn);
    over := chosen.None?;
    if over {
      PlayStops(turn, g0, s0, pieces, i);
    } else {
      PlayStep(turn, g0, s0, pieces, i, chosen.value, board.Cells, board.score);
    }
  }

  /** `simulate_game`: play the pieces on a new board and return its score. */
  method SimulateGame(table: PieceTable, pieces: seq<PieceType>, weigh: Features -> int) returns (score: int)
    requires table.Valid()
    ensures score == Play(Policy(table, weigh), BlankGrid(), 0, pieces).1
    ensures score >= 0
  {
    PolicyFollows(table, weigh);
    score := PlayGame(table, pieces, weigh, Policy(table, weigh));
  }

  /** The loop of `simulate_game`, for any turn function that takes `Step`'s turns. */
  method PlayGame(table: PieceTable, pieces: seq<PieceType>, weigh: Features -> int,
                  ghost turn: (seq<seq<bool>>, PieceType) -> Option<Move>) returns (score: int)
    requires table.Valid() && Follows(turn, table, weigh)
    ensures score == Play(turn, BlankGrid(), 0, pieces).1
    ensures score >= 0
  {
    var board := new Board();
    ghost var total := Play(turn, BlankGrid(), 0, pieces).1;
    for i := 0 to |pieces|
      invariant board.Valid() && fresh(board) && fresh(board.grid) && fresh(board.colorGrid) && fresh(board.heights)
      invariant total == Play(turn, board.Cells, board.score, pieces[i..]).1
    {
      var over := PlayTurn(board, table, pieces, i, weigh, turn, total);
      if over {
        break;
      }
    }
    score := board.GetScore();
    assert pieces[|pieces|..] == [];
  }
}
