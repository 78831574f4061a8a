# Tetris AI board engine and greedy player, modelled in Dafny

This project models two parts of a small Tetris AI written in Rust:

- **The board engine** (`src/board.rs`). A `Board` holds:
  - a 15 × 10 occupancy grid, with row 0 at the bottom;
  - a parallel colour grid;
  - per-column heights;
  - a score.

  The engine has these operations:
  - `apply` drops a piece of a given kind, rotation and column. It writes the piece's cells, clears full rows downward, recomputes the heights and adds the line-clear bonus.
  - `simulate` runs the same drop and fit checks on copies. It clears full rows *upward*, as the source does. It computes nine integer board features, plus the integer height sum that the four floating-point features are functions of.
  - `get_start_y` computes a spawn row.
  - `new`, `get_height` and `get_score` build and read the board.
- **The greedy player** (`src/main.rs`, `simulate_game` and the identical move loop of `preview`). Each turn it:
  1. enumerates every rotation 0..3 and every column that fits the board;
  2. keeps the placements `simulate` accepts, each with its weighted score;
  3. stably sorts them by score and commits the first with `apply`;
  4. stops when no placement is left.

Layout:

- `wrappers.dfy`: `Option` and `Result`.
- `grid.dfy` (`Grid`): grid dimensions, full rows, both clearing directions, column heights, cell counts.
- `pieces.dfy` (`Pieces`): piece kinds, the rotation table, gravity (the resting row), the piece's blocks, the fit check and placement.
- `features.dfy` (`Features`): the nine integer features and the height sum, each as a specification function plus the accumulator loop that computes it, with their bounds.
- `trial.dfy` (`Trial`): `simulate`'s work on copies (place, find full rows, clear upward, recompute heights, measure).
- `board.dfy` (`BoardState`): the `Board` class. Its `array2` grids, `array` heights and integer score are updated in place by `Apply`. Ghost fields `Cells` and `Colors` mirror the arrays as sequences.
- `game.dfy` (`Game`): the candidate enumeration, the stable sort and its first element, one turn, and the game loop.

Two things are parameters of the model:

- **The piece table** (`Pieces.PieceTable`): seven kinds × four rotations, each a shape with a width, a height, a 0/1 mask and leftmost/rightmost offsets.
- **The weighted score** (`weigh: Features -> int`).

The game loop takes its pieces as an input sequence.

`Game.Play` is the reference definition of a whole game. It is written for any turn function. `Game.Policy` is the turn function that the greedy player's `Game.Step` defines. `Game.SimulateGame` is proved to return `Play(Policy(table, weigh), BlankGrid(), 0, pieces).1`.

## Model

| member | source | states |
|---|---|---|
| Pieces.PieceType.Tag | src/board.rs:311 | the colour written for a piece is its kind's index, 0 to 6 |
| Pieces.PieceTable.Get | src/board.rs:63 | every rotation in a valid table is a valid shape (width 1..10, height 1..4, a mask of at least four rows) |
| Pieces.ColumnNeed | src/board.rs:75-86 | the per-column maximum of `heights[x+dx] - i` over occupied mask cells starts at 0, so it is never negative |
| Pieces.ColumnNeedIsMax | src/board.rs:75-86 | that per-column value bounds every occupied cell of the column and, when positive, is attained by one of them |
| Pieces.NeedUpToIsMax | src/board.rs:72-91 | the running `required_y` over the first k columns bounds every occupied cell there and, when positive, is attained |
| Pieces.RestingRow | src/board.rs:71-92 | defines `required_y`: the running maximum over all columns of the piece, starting from 0 |
| Pieces.RestingRowIsLowest | src/board.rs:71-92 | gravity: the resting row is ≥ 0, every piece cell lies at or above its column's height, and a positive resting row has one cell exactly on its column's height |
| Pieces.RowBlocksOrder | src/board.rs:96-106 | the blocks collected from one mask row are in column order and lie in that row |
| Pieces.RowBlocksIn | src/board.rs:96-106 | a cell is collected from a mask row exactly when the mask covers it |
| Pieces.BlocksUpToOrder | src/board.rs:96-106 | blocks collected from the first m mask rows are in row-major order, within those rows |
| Pieces.BlocksUpToIn | src/board.rs:96-106 | a cell is collected from the first m mask rows exactly when the mask covers it |
| Pieces.BlocksCover | src/board.rs:95-107 | the `blocks` vector is in row-major order and holds exactly the cells the mask covers |
| Pieces.BlocksOnBoard | src/board.rs:99-104 | when the fit check passes, every block is on the board and on an empty cell |
| Pieces.Legal | src/board.rs:66-107 | defines the placements `simulate` and `apply` accept: `x + width <= 10`, and every covered cell at the resting row is below row 15 and empty |
| Pieces.NoCollision | src/board.rs:101 | when heights match the grid, the occupied-cell test never fails: a placement is legal exactly when every cell lands below row 15 |
| Pieces.PlaceAll | src/board.rs:115-116 | writing blocks keeps a 15 × 10 grid |
| Pieces.PlaceAllAt | src/board.rs:115-116 | after placement a cell is occupied exactly when it was before or is one of the blocks |
| Pieces.Placed | src/board.rs:113-119 | defines the grid after a legal placement: the blocks at the resting row written in; it is a 15 × 10 grid |
| Pieces.PlaceAllHeights | src/board.rs:359-363 | raising `heights[col]` to `y + 1` block by block gives the heights of the new grid |
| Pieces.PlaceAllColored | src/board.rs:359-361 | when the colour is set exactly where the grid is occupied, placement keeps that so |
| Pieces.PlaceAllCount | src/board.rs:359-360 | placing distinct blocks on empty cells adds one occupied cell per block |
| Pieces.PlacedFacts | src/board.rs:343-364 | a legal placement's blocks are on the board, raise the heights as the grid says, and add one cell each |
| Pieces.FullRowsTouched | src/board.rs:367-372 | on a board with no full row, every row that is full after placing lies among the piece's rows |
| Pieces.AtMostFourCleared | src/board.rs:367-372 | hence at most the piece's height (≤ 4) rows become full |
| Grid.BlankGrid | src/board.rs:34 | the empty grid is a 15 × 10 grid |
| Grid.FullRowsFacts | src/board.rs:122-127 | `full_rows` lists exactly the full rows, in increasing order, and its length is the full-row count |
| Grid.FullRowsBelowFacts | src/board.rs:123-126 | the same, for the rows scanned so far |
| Grid.Keep | src/board.rs:380-391 | the surviving rows number the rows minus the full rows |
| Grid.ClearDown | src/board.rs:375-394 | clearing downward keeps 15 rows |
| Grid.ClearUp | src/board.rs:131-147 | clearing upward keeps 15 rows |
| Grid.KeepNone | src/board.rs:131 | with no full row, both clears leave the rows as they are |
| Grid.ClearDownMovesRow | src/board.rs:380-391 | `apply`'s clear: a surviving row y lands at `y -` (full rows below it), and the top k rows become blank |
| Grid.ClearDownKeepsOrder | src/board.rs:380-391 | surviving rows keep their relative order when cleared downward |
| Grid.ClearUpMovesRow | src/board.rs:135-145 | `simulate`'s clear: a surviving row y lands at `y +` (full rows above it), and the bottom k rows become blank |
| Grid.ClearUpKeepsOrder | src/board.rs:135-145 | surviving rows keep their relative order when cleared upward |
| Grid.ClearUpKeepsTop | src/board.rs:135-145 | rows above the highest full row stay where they are |
| Grid.ClearedIsGrid | src/board.rs:132 | both clears yield a 15 × 10 grid |
| Grid.ClearDownNoFullRow | src/board.rs:375-394 | after `apply`'s clear no row is full |
| Grid.ClearDownColored | src/board.rs:388-389 | moving grid and colour rows together keeps colour-exactly-where-occupied |
| Grid.ClearDownCellCount | src/board.rs:375-394 | the clear removes exactly 10 occupied cells per full row |
| Grid.ColumnHeight | src/board.rs:399-404 | the scan from the top finds a height between 0 and 15 |
| Grid.ColumnHeightIsTop | src/board.rs:397-405 | the height is one above the topmost occupied cell, and every cell at or above it is empty |
| Grid.ColumnHeightUnique | src/board.rs:397-405 | any value with that property is the column height |
| Grid.HeightsOf | src/board.rs:149-157 | recomputed heights are ten values between 0 and 15 |
| Grid.BlankHeights | src/board.rs:36 | an empty grid has all heights 0 |
| Grid.SetCell | src/board.rs:360 | writing one cell keeps a 15 × 10 grid |
| Grid.PaintCell | src/board.rs:361 | writing one colour keeps a 15 × 10 colour grid |
| Grid.SetCellHeights | src/board.rs:360-362 | `heights[col].max(y + 1)` is exactly the new grid's height after writing one cell |
| Grid.SetCellColored | src/board.rs:360-361 | writing a cell and its colour together keeps colour-exactly-where-occupied |
| Grid.SetCellCount | src/board.rs:360 | writing an empty cell adds one occupied cell |
| Features.HighestRow | src/board.rs:165 | the landing height is the largest block row, or 0 when there are no blocks |
| Features.FindLandingHeight | src/board.rs:165-166 | the loop computes that landing height |
| Features.ErodedCount | src/board.rs:169-174 | the eroded count is at most the number of blocks |
| Features.CountEroded | src/board.rs:169-175 | the loop counts blocks in full rows and multiplies by the rows cleared |
| Features.RowTransitions | src/board.rs:178-194 | defines `row_transitions`: per row, the value changes along the row with a filled wall on each side, summed over the rows |
| Features.CountRowTransitions | src/board.rs:178-194 | the loop sums each row's transitions with both side walls counted as filled |
| Features.ColumnTransitions | src/board.rs:197-213 | defines `column_transitions`: per column, the value changes from a filled floor upward to a filled space above row 14, summed over the columns |
| Features.CountColumnTransitions | src/board.rs:197-213 | the loop sums each column's transitions with the floor and the space above row 14 counted as filled |
| Features.EmptyBelow | src/board.rs:226-230 | the empty cells below row n number at most n |
| Features.FindTop | src/board.rs:218-224 | the downward scan finds the topmost occupied row, or none |
| Features.Holes | src/board.rs:216-233 | defines `holes`: per column, the empty cells strictly below its topmost occupied cell |
| Features.CountHoles | src/board.rs:216-233 | the loop counts empty cells below each column's topmost occupied cell |
| Features.WellAt | src/board.rs:237-251 | a column is a well exactly when it is lower than both neighbours, and then adds the smaller difference; edge columns are never wells |
| Features.Wells | src/board.rs:236-253 | defines `board_wells`: the sum of `WellAt` over the ten columns |
| Features.SumWells | src/board.rs:236-253 | the loop sums the well depths |
| Features.HoleDepth | src/board.rs:256-265 | defines `hole_depth`: the sum of `h - y` over the empty cells below each column's height `h` |
| Features.SumHoleDepth | src/board.rs:256-265 | the loop sums `height - y` over the empty cells below each column's height |
| Features.RowsWithHolesUpTo | src/board.rs:269-280 | at most n of the first n rows have a hole |
| Features.RowsWithHoles | src/board.rs:268-281 | defines `rows_with_holes`: the rows with an empty cell below its column's height |
| Features.CountRowsWithHoles | src/board.rs:268-281 | the loop counts rows with an empty cell below its column's height |
| Features.Diversity | src/board.rs:284-290 | defines `diversity`: the sum of absolute height differences of neighbouring columns |
| Features.SumDiversity | src/board.rs:284-290 | the loop sums the absolute height differences of neighbouring columns |
| Features.HeightSum | src/board.rs:293-294 | defines the sum of the ten column heights, whose mean is the one input of the RFB features 9–12 |
| Features.SumHeights | src/board.rs:293-294 | the loop computes that height sum |
| Features.TransitionsParity | src/board.rs:180-191 | a transition count that starts and ends on a filled wall is even and at most the length plus one |
| Features.TransitionsUniform | src/board.rs:180-191 | a line of one value has 0 transitions if filled and 1 from the wall otherwise |
| Features.LineTransitions | src/board.rs:180-191 | a line's count is even and at most its length plus one; it is 0 for a full line and 2 for an empty one |
| Features.TransitionBounds | src/board.rs:178-213 | each row's count is even and ≤ 10, and each column's is even and ≤ 16 |
| Features.RowSumBound | src/board.rs:178-194 | row transitions total at most 10 per row |
| Features.ColumnSumBound | src/board.rs:197-213 | column transitions total at most 16 per column |
| Features.HolesByColumns | src/board.rs:216-265 | with heights from the grid, holes counted per column equal the per-cell hole count and are at most the hole depth |
| Features.RowsWithHolesAtMostHoles | src/board.rs:268-281 | rows with holes are at most the holes, and there are none exactly when there is no hole |
| Features.HoleMeasures | src/board.rs:216-281 | with heights from the grid, rows_with_holes ≤ holes ≤ hole_depth, and all three are 0 exactly when there is no hole |
| Features.DiversityMeasures | src/board.rs:284-290 | diversity is 0 exactly when all heights are equal, and is at least the difference between the first and last column |
| Features.HeightSumMeasures | src/board.rs:293-294 | with heights in 0..15, the height sum lies between 10 × the lowest and 10 × the highest height, and is 0 exactly when every column is empty |
| Trial.Outcome | src/board.rs:110-301 | defines `simulate`'s result for a legal placement: the number of full rows after placing, and the ten feature values of the grid after the upward clear, with heights recomputed from that grid |
| Trial.Trialled | src/board.rs:110-158 | the trial grid after placing and clearing upward is a 15 × 10 grid |
| Trial.OutcomeCleared | src/board.rs:122-128 | on a board with no full row, `cleared` is the number of rows the placement fills, at most the piece's height |
| Trial.OutcomeLanding | src/board.rs:164-175 | the landing height lies within the piece's rows, and the eroded cells are at most blocks × cleared |
| Trial.LandingAtLeastResting | src/board.rs:165 | blocks lie in the piece's rows above the resting row, and so does the highest of them |
| Trial.PlaceOnCopy | src/board.rs:110-119 | writing the blocks into the copies gives the placed grid and the raised heights |
| Trial.FindFullRows | src/board.rs:121-127 | the scan collects exactly the full rows, in order |
| Trial.ClearRowsUp | src/board.rs:131-147 | the top-down loop with `new_y = y + shift` computes the upward clear |
| Trial.RecomputeHeights | src/board.rs:149-157 | the recomputation gives the heights of the grid |
| Trial.PlaceAndClearCopy | src/board.rs:109-158 | the copies end up placed and cleared upward; heights are recomputed when rows were cleared, and otherwise the raised heights already equal them |
| Trial.Measure | src/board.rs:161-294 | the ten feature loops compute the ten specification values of the trial grid |
| BoardState.LineClearBonus | src/board.rs:407-414 | the bonus is between 0 and 800 and positive exactly for 1 to 4 rows |
| BoardState.Committed | src/board.rs:357-405 | the board after a legal `apply` is a 15 × 10 grid with no full row |
| BoardState.Gain | src/board.rs:375-415 | the score gained is between 0 and 800 and positive exactly when 1 to 4 rows became full |
| BoardState.ApplyMatchesSimulate | src/board.rs:367-415 | `simulate`'s `cleared` is the number of rows `apply` removes (≤ 4); `apply` scores that bonus; the cell count changes by + blocks − 10 × cleared |
| BoardState.TopFilledRow | src/board.rs:432-435 | `i_max` is the highest mask row among the first four with a set cell, or 0 |
| BoardState.FindTopFilledRow | src/board.rs:431-435 | the reverse search computes `i_max` |
| BoardState.MinHeight | src/board.rs:438-439 | the minimum is at most every column's height in the range and equals one of them |
| BoardState.CopyRow | src/board.rs:388-389 | copying a row changes exactly that row of the target |
| BoardState.CompactDown | src/board.rs:376-391 | the bottom-up copy with `new_y = y - shift` into fresh arrays gives the downward clear |
| BoardState.Overwrite | src/board.rs:393-394 | after assigning the new grid, the board's array has exactly its rows |
| BoardState.ClearKeepsRows | src/board.rs:375-394 | the downward clear leaves no full row, keeps colour-exactly-where-occupied, and changes nothing when no row is full |
| BoardState.Board.constructor | src/board.rs:32-39 | a new board is empty with no colours, heights all 0 and score 0, and satisfies the board invariant |
| BoardState.Board.GetHeight | src/board.rs:41-43 | the stored height is one above the column's topmost occupied cell, and the cells above it are empty |
| BoardState.Board.GetScore | src/board.rs:53-55 | returns the score, which is never negative |
| BoardState.Board.RequiredY | src/board.rs:319-340 | the loop computes the resting row; every piece cell is at or above its column's height, and a positive result touches one |
| BoardState.Board.CollectBlocks | src/board.rs:343-355 | it fails exactly when some cell would land at row ≥ 15 or on an occupied cell; otherwise it returns the blocks in row-major order |
| BoardState.Board.ScanRow | src/board.rs:345-353 | the same check, for one mask row |
| BoardState.Board.PlaceBlocks | src/board.rs:358-364 | the grid, colour grid and heights become the placed ones; the score is unchanged |
| BoardState.Board.PlaceCell | src/board.rs:360-362 | one cell and its colour are written and its column's height is raised to `y + 1` |
| BoardState.Board.DetectFullRows | src/board.rs:367-372 | the scan collects exactly the full rows, in order |
| BoardState.Board.ClearRowsDown | src/board.rs:375-394 | grid and colour grid both become their downward clear by the full rows |
| BoardState.Board.TopOf | src/board.rs:399-404 | the downward scan finds the column's topmost occupied row, or none |
| BoardState.Board.RecomputeHeights | src/board.rs:397-405 | the heights become those of the grid |
| BoardState.Board.PlaceAndClear | src/board.rs:357-416 | place, clear downward, recompute heights, and add the bonus for the number of full rows |
| BoardState.Board.Apply | src/board.rs:304-419 | "Piece out of bounds" exactly when `x + width > 10`; "Piece doesn't fit" exactly when it is in bounds but illegal; an error changes nothing; success commits the placed-and-cleared board, keeps the invariant (heights match, no full row, colour exactly where occupied) and adds the bonus |
| BoardState.Board.CopyGrid | src/board.rs:110 | the copy equals the board's grid |
| BoardState.Board.Simulate | src/board.rs:57-302 | returns none exactly when the placement is out of bounds or does not fit (so exactly when `apply` would fail); otherwise `cleared` and the ten feature values of the trial placement; the board is not modified |
| BoardState.Board.GetStartY | src/board.rs:421-441 | 0 when the piece's leftmost/rightmost cells would leave the board; otherwise `min_height - i_max`, which puts the top filled mask row at the lowest column height of the range |
| BoardState.Board.LowestColumn | src/board.rs:438-439 | the scan computes the minimum height over the piece's columns |
| Game.ColumnScanSound | src/main.rs:185-193 | every action listed by the column scan was accepted by `simulate`, carries its score, and lies in range |
| Game.ColumnScanOrdered | src/main.rs:185 | the column scan lists columns in increasing order |
| Game.ColumnScanComplete | src/main.rs:185-193 | every accepted column is listed |
| Game.RotationScanSound | src/main.rs:183-195 | every action listed by the rotation scan was accepted, with its rotation in range |
| Game.RotationScanOrdered | src/main.rs:183-185 | actions are listed by rotation, then by column |
| Game.RotationScanComplete | src/main.rs:183-195 | every accepted (rotation, column) pair is listed |
| Game.Candidates | src/main.rs:182-195 | defines `possible_actions`: the rotation-then-column scan keeping the pairs `simulate` accepts, each with its weighted score |
| Game.CandidatesSpec | src/main.rs:182-195 | `possible_actions` holds exactly the pairs `simulate` accepts on the current board, each with its weighted score, none out of bounds, in enumeration order |
| Game.CandidatesOrdered | src/main.rs:183-185 | candidates are in (rotation, column) order |
| Game.ListCandidates | src/main.rs:182-195 | the nested loops build that candidate list |
| Game.ListColumns | src/main.rs:185-194 | the inner loop builds one rotation's part of it |
| Game.TryColumn | src/main.rs:186-193 | one column is appended exactly when `simulate` accepts it |
| Game.Insert | src/main.rs:201 | inserting into the sorted list adds one element |
| Game.SortByScore | src/main.rs:201 | the reference stable sort keeps the length |
| Game.FirstMin | src/main.rs:201-202 | the first position of the minimum score: no score is smaller and all earlier ones are larger |
| Game.SortPermutes | src/main.rs:201 | sorting is a permutation |
| Game.SortSorts | src/main.rs:201 | the result is ordered by score |
| Game.SortIsStable | src/main.rs:201 | actions with equal scores keep their relative order |
| Game.SortHead | src/main.rs:201-202 | the first element after sorting is the first minimum of the unsorted list |
| Game.Choice | src/main.rs:197-202 | the chosen action has a rotation 0..3 and is a legal placement |
| Game.ChoiceIsCandidate | src/main.rs:182-202 | the chosen action is a candidate with its own weighted score |
| Game.ChoiceEndsGame | src/main.rs:197-199 | no action is chosen exactly when no rotation and column is legal |
| Game.ChoiceIsBest | src/main.rs:201-202 | the chosen score is at most every legal placement's score, and strictly less than any legal placement enumerated before it (the stable tie-break) |
| Game.ChooseAction | src/main.rs:182-202 | enumerating, sorting and taking the first gives the chosen action |
| Game.Step | src/main.rs:182-206 | a committed turn yields a grid with no full row and a gain between 0 and 800 |
| Game.StepEndsGame | src/main.rs:197-199 | the game ends exactly when no rotation and column is legal for the piece |
| Game.Turn | src/main.rs:182-206 | one turn of `simulate_game`: with no candidate the board is unchanged; otherwise the chosen action is legal and is applied, its `apply` cannot fail, the grid and score move as `Step` says, and the colour grid is painted and cleared as `apply` does; `preview`'s loop body (src/main.rs:226-251) is the same turn for a `weigh` that orders the feature values as the `WEIGHTS` score does |
| Game.Policy | src/main.rs:182-206 | defines the greedy player's turn as a function of the grid and the piece: `Step` |
| Game.PolicyBounded | src/board.rs:407-415 | every committed turn gains between 0 and 800 points |
| Game.Play | src/main.rs:171-209 | defines a whole game: take turns over the pieces in order, stop at the first piece with no turn, and return the actions and the final score |
| Game.PlayScore | src/main.rs:171-209 | over a game the score never decreases, and grows by at most 800 per committed piece |
| Game.GameScore | src/main.rs:165-210 | from an empty board the final score is between 0 and 800 per piece |
| Game.PlayStops | src/main.rs:197-199 | when a piece cannot be placed, the game's result is the current score |
| Game.PlayTurn | src/main.rs:171-207 | one loop iteration keeps the board invariant and keeps the game's remaining result, or stops with it |
| Game.PlayGame | src/main.rs:166-209 | the loop over the piece sequence returns the reference game's final score, which is ≥ 0 |
| Game.SimulateGame | src/main.rs:165-210 | `simulate_game` over a piece sequence returns the score of the greedy game from an empty board |

## Left out

- Rendering: `draw` and `draw_colored` in `src/board.rs`, and in `src/main.rs` `display_game_with_next_piece` and `preview`'s screen clearing, printing and sleep. They are terminal output only.
- Training: `train` and `print_results` in `src/main.rs` (a CMA-ES optimiser from an external crate, a Ctrl+C handler, parallel evaluation, plot files). These are foreign calls, concurrency and I/O.
- `main`'s argument parsing is I/O.
- Features 9–12 (the RFB terms) are `f64` Gaussians, `exp` of a square of the mean column height. The model computes the integer height sum that the mean is taken from, `Features.HeightSum`, and not the floating-point terms themselves.
- The weights, the `WEIGHTS` constants and the `f64` dot product are floating point. The weighted score is the parameter `weigh: Features -> int`.
  - The program's score, rounding included, is a function of the ten modelled values, because features 9–12 depend only on the height sum.
  - Those values range over a finite set, so some integer `weigh` orders every pair of them as the `f64` scores do, ties included.
  - The NaN fallback of `partial_cmp` never applies, since every feature is finite.
- Randomness: `rand` piece generation and `get_random_piece`. The game takes its pieces as an input sequence; `simulate_game` draws 1,000,000 of them.
- `preview`'s endless loop and its "next piece" look-ahead are modelled only through the shared turn, `Game.Turn`, and through a finite game, `Game.PlayGame`.
- `src/piece.rs` is not part of this model. The `ROTATIONS` table is the parameter `Pieces.PieceTable`, whose shapes are assumed to have width 1..10, height 1..4 and a mask of at least four rows. No concrete tetromino shapes are assumed.
- Integer widths:
  - `usize` and `i32` are modelled as unbounded integers.
  - The score is an `i32`. `Game.GameScore` bounds it by 800 per piece, so 1,000,000 pieces stay below 2^31 and it cannot overflow.
- `Features.SumDiversity`: computes `|h[x] - h[x-1]|`. The source subtracts in `usize` (src/board.rs:287). That panics in debug builds whenever a height drops, and gives the same absolute value only through wrap-around and the `i32` cast in release builds.
- `BoardState.Board.GetStartY`: requires `0 <= rotate < 4`, for the same reason as `Apply`. It also requires that the lowest column height in the piece's range is at least `i_max`, and that the range lies on the board. The source's `usize` subtraction and `heights` indexing would panic otherwise. `get_start_y` has no caller in `src/main.rs` or `src/board.rs`.
- `BoardState.Board.Apply`: requires `0 <= rotate < 4`. The source indexes `ROTATIONS[piece_type][rotate]` and panics for a larger rotation, and every call in `src/main.rs` passes a rotation from `0..4`.
- `BoardState.Board.Simulate`: requires `0 <= rotate < 4`, as `Apply` does. The source also keeps `max_h`, which no later step reads, so the model computes it neither here nor in `Apply`.
- `Game.Turn` and `Game.PlayGame` take the turn function as a ghost parameter. Their callers supply `Game.Policy`, the greedy `Step`. This only keeps `Step`'s definition out of the loop's proof.
- `get_grid` and `get_color_grid` return references to the arrays. The model reads the fields, or the ghost `Cells` and `Colors`, directly.
