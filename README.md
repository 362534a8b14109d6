# Minesweeper grid generator, modelled in Dafny

The repository builds Minesweeper boards in two versions, `kata/src/main_v1.py`
and `kata/src/main_v2.py`. Each version places mines on a rows x cols grid of
string labels (`"*"` for a mine, `"."` for an empty cell, `"1"` or a decimal count
for a labelled cell) in five ways:

- `minesweeper_basic`: mines at given positions.
- `minesweeper_random`: one random mine, optionally with `"1"` cells next to it, or several random mines.
- `minesweeper_random_complete` (v1) and `minesweeper_random_revised` (v2): several random mines, plus `"1"` cells drawn from the empty orthogonal neighbours of the mines.
- `minesweeper_with_numbers`: every non-mine cell gets its count of orthogonal (4-direction) neighbouring mines.
- `minesweeper_with_adjacent_mines`: the same with 8-direction counts.

The project has three modules:

- `Board` (`board.dfy`) holds the shared vocabulary:
  - positions and the `gridSize` argument;
  - the two neighbour relations;
  - the exact mine count of a cell (`MineCount`) and the label a numbered grid must show (`Label`);
  - the cells a random placement may label `"1"` (`Frontier`, `SingleMineOnes`);
  - the marking loop every operation runs.
- `MinesweeperV1` (`minesweeper_v1.dfy`) models `main_v1.py`.
- `MinesweeperV2` (`minesweeper_v2.dfy`) models `main_v2.py`.

Every operation allocates a fresh `array2<string>` and fills it in loops, as the
Python code fills its list of rows. Each method's postcondition states every cell of
the result: a mine exactly at the listed or drawn positions, and otherwise the value
of a specification function (`Board.Label`, `Board.SingleMineOnes`, `Board.Frontier`,
or v2's `MinesweeperV2.AccLabel`) or `"."`.

The random draws are parameters:

- `sampledMines` is the result of `random.sample` of the board positions.
- `chosenMine` and `chosenOne` are results of `random.choice`.
- `sampledOnes` is the sample of the `"1"` cells.

The ranges `randint` draws the sizes from become preconditions. They use the predicates `MinesDrawn`, `OnesDrawn` and `FrontierOnesDrawn`. So does the failure of `randint`, `sample` or `choice` on a board that is too small.

The two versions count neighbours differently:

- v1 scans each cell and counts the `"*"` cells around it.
- v2 walks each mine and adds one to each of its adjacent non-mine positions.

`MinesweeperV2.ScanAndAccumulationAgree` proves that, for a duplicate-free list of in-bounds mines, both give every cell the same count. It holds for any listing of the offsets without repetition, so it covers v1's four orthogonal offsets and its eight `directions`. The proof rests on the symmetry of the neighbour relation (`Board.AdjacentSymmetric`).

v2's `minesweeper_with_numbers` walks an explicit `mines` list as given. A position listed twice is counted once per listing, as `MinesweeperV2.RepeatedMineCountedRepeatedly` shows. The model keeps this behaviour (`AccLabel`), and it proves the exact labels whenever the list has no repetition. A random draw never repeats.

Two behaviours of the code on small boards shape the preconditions:

- `with_numbers` without mines and `with_adjacent_mines` draw the number of mines with `randint(1, rows * cols // 4)` (kata/src/main_v1.py:106,142; kata/src/main_v2.py:109,135). On a board with fewer than 4 cells this is `randint(1, 0)`, which raises. The model makes at least one mine a precondition.
- On a shape with zero rows or zero columns, only `minesweeper_basic` with an empty mine list returns a value: `[]` for `[0, c]` and r empty rows for `[r, 0]`. Every other call raises. Writing a given mine indexes a row or column that does not exist (kata/src/main_v1.py:7-8,111-112; kata/src/main_v2.py:25-26,112-113). The random paths draw from an empty list of positions. The model returns a `0 x c` or `r x 0` array for `Basic` with no mines. Elsewhere it makes in-bounds mines and in-range draws preconditions, so these shapes cannot reach it.

## Model

| member | source | states |
|---|---|---|
| Board.Str | kata/src/main_v1.py:128-129 | a count is written as a non-empty string of decimal digits, the single digit itself below 10 |
| Board.StrIsNotMineOrEmpty | kata/src/main_v1.py:128-129 | a written count never reads as `"*"` or `"."` |
| Board.Label | kata/src/main_v1.py:114-129 | the label of a numbered grid is `"*"` exactly at the mines |
| Board.AdjacentSymmetric | kata/src/main_v2.py:115-119 | p is a neighbour of q iff q is a neighbour of p, in both topologies |
| Board.NeighboursBound | kata/src/main_v2.py:8-17 | a cell has at most 4 in-bounds orthogonal neighbours and at most 8 in the full topology |
| Board.MineCountBound | kata/src/main_v1.py:120-126 | an exact mine count is at most 4 (orthogonal) or 8 (full) |
| Board.ScanCountIsMineCount | kata/src/main_v1.py:120-126 | counting the in-bounds mines met while walking a duplicate-free list of the topology's offsets gives the exact neighbour count |
| Board.LabelAlphabet | kata/src/main_v1.py:150-160 | every numbered label is `"*"`, `"."` or one digit from 1 to 4 (orthogonal) or 1 to 8 (full) |
| Board.MaxMines | kata/src/main_v1.py:22-23 | on a non-empty board the multi-mine ceiling is half the cells, rounded down, and stays below the number of cells |
| Board.SingleMineOnesPlacement | kata/src/main_v1.py:33-52 | in single-mine mode every `"1"` is an in-bounds orthogonal neighbour of the mine and never the mine. `multiple_ones` places between 1 and the neighbour count (at most 4). Otherwise exactly one is placed when `ones > 0` and a neighbour exists, and none when the mine has no neighbour or no ones are asked for |
| Board.CountInDistinct | kata/src/main_v1.py:120-126 | counting the entries of a duplicate-free list that lie in a set gives the size of the common part |
| Board.NumberedGridMines | kata/src/main_v1.py:110-129 | in a grid labelled by `Label`, the `"*"` cells are exactly the in-bounds mines |
| Board.NewGrid | kata/src/main_v1.py:5 | a fresh rows x cols grid, all `"."` |
| Board.Mark | kata/src/main_v1.py:7-8 | afterwards every listed position holds the label and every other cell is unchanged |
| MinesweeperV1.EightDirectionsAreFull | kata/src/main_v1.py:150 | the offsets built for the full topology are eight distinct offsets, exactly the neighbours at Chebyshev distance 1 |
| MinesweeperV1.Basic | kata/src/main_v1.py:1-10 | the grid has the requested shape (0 x 0 when the size is missing), `"*"` exactly at the given positions and `"."` elsewhere |
| MinesweeperV1.OrthogonalNeighbours | kata/src/main_v1.py:34-40 | the list holds the in-bounds orthogonal neighbours of the mine, each once, at most 4 |
| MinesweeperV1.Random | kata/src/main_v1.py:12-54 | multi-mine mode: `"*"` exactly at the sampled positions and no `"1"`, with a mine count between 2 and the ceiling. Single-mine mode: exactly one `"*"`, and the `"1"` cells are exactly the placement that `SingleMineOnes` describes |
| MinesweeperV1.PlaceSingleMine | kata/src/main_v1.py:28-52 | on an all-`"."` grid: the mine, the `"1"` cells of `SingleMineOnes`, `"."` elsewhere |
| MinesweeperV1.AddEmptyAround | kata/src/main_v1.py:77-80 | adds to the candidates exactly the in-bounds `"."` cells one orthogonal step from the mine |
| MinesweeperV1.OneCandidates | kata/src/main_v1.py:74-80 | the candidate set is exactly the frontier: in-bounds cells that are not mines and are orthogonally next to one |
| MinesweeperV1.RandomComplete | kata/src/main_v1.py:56-89 | `"*"` exactly at the sampled mines, whose number is between 1 and the ceiling and below the cell count. `"1"` exactly at the sampled ones, each orthogonally next to a mine and never on one. When the frontier is non-empty, between 1 and its size of them are placed. `"."` elsewhere |
| MinesweeperV1.CountMarkedNeighbours | kata/src/main_v1.py:120-126 | the count is the exact number of `"*"` cells among the in-bounds orthogonal neighbours |
| MinesweeperV1.NumberCell | kata/src/main_v1.py:117-129 | one step of the scan: the cells before (i, j) in row-major order keep their exact labels, (i, j) gets its exact label (a mine stays `"*"`), and the later cells still hold only `"*"` and `"."` |
| MinesweeperV1.NumberRow | kata/src/main_v1.py:116-129 | one row of the scan: the row gets its exact labels while later rows still hold only `"*"` and `"."` |
| MinesweeperV1.NumberCells | kata/src/main_v1.py:114-129 | the scan leaves every cell with its exact orthogonal label. Digits written earlier do not disturb later counts |
| MinesweeperV1.WithNumbers | kata/src/main_v1.py:91-131 | every cell holds `Label` of the given mines, or of the drawn mines when none are given. A random draw places between 1 and total//4 mines |
| MinesweeperV1.CountMinesAround | kata/src/main_v1.py:154-158 | the count is the exact number of mines among the in-bounds eight neighbours |
| MinesweeperV1.LabelCells | kata/src/main_v1.py:149-160 | the scan leaves every cell with its exact 8-direction label |
| MinesweeperV1.WithAdjacentMines | kata/src/main_v1.py:133-162 | every cell holds the 8-direction `Label` of the drawn mines, and the number of `"*"` cells equals the number drawn |
| MinesweeperV2.GeneratePositions | kata/src/main_v2.py:4-6 | rows*cols positions, all in bounds, the k-th being the position of row-major rank k |
| MinesweeperV2.PositionsAreTheBoard | kata/src/main_v2.py:4-6 | every in-bounds position appears exactly once and nothing else appears |
| MinesweeperV2.InBoundsShifts | kata/src/main_v2.py:13-17 | holds exactly the in-bounds cells one listed offset away, no more than there are offsets, without repetition when the offsets are distinct |
| MinesweeperV2.AdjacentPositions | kata/src/main_v2.py:8-17 | holds exactly the in-bounds neighbours in the chosen topology, each once, never the cell itself, at most 4 or 8 |
| MinesweeperV2.AdjacentPositionsAreNeighbours | kata/src/main_v2.py:8-17 | the adjacent positions are the cell's neighbour set |
| MinesweeperV2.Basic | kata/src/main_v2.py:19-28 | as in v1: requested shape, `"*"` exactly at the given positions, `"."` elsewhere |
| MinesweeperV2.Random | kata/src/main_v2.py:30-64 | as in v1, with the neighbours taken from `get_adjacent_positions` |
| MinesweeperV2.PlaceSingleMine | kata/src/main_v2.py:47-62 | on an all-`"."` grid: the mine, the `"1"` cells of `SingleMineOnes`, `"."` elsewhere |
| MinesweeperV2.OneCandidates | kata/src/main_v2.py:84-89 | the candidate set is exactly the frontier of the mines |
| MinesweeperV2.RandomRevised | kata/src/main_v2.py:66-97 | as `RandomComplete`: mines and `"1"` cells exactly as sampled, between 1 and the ceiling mines, every `"1"` orthogonally next to a mine, 1 up to the frontier size of them when the frontier is non-empty |
| MinesweeperV2.AccCountIsCountIn | kata/src/main_v2.py:115-119 | walking the mines reaches an in-bounds cell once for each listed mine among its neighbours (symmetry of the neighbour relation) |
| MinesweeperV2.AccumulatedCountIsMineCount | kata/src/main_v2.py:115-119 | for a duplicate-free list of in-bounds mines, the accumulated count is the exact neighbour count |
| MinesweeperV2.ScanAndAccumulationAgree | kata/src/main_v2.py:115-122 | the cell-centric scan of v1 (kata/src/main_v1.py:120-126,150-158), over any repetition-free listing of the offsets, and the mine-centric accumulation of v2 give every in-bounds cell the same count for the same duplicate-free mines |
| MinesweeperV2.RepeatedMineCountedRepeatedly | kata/src/main_v2.py:115-119 | a mine listed n times is counted n times by a neighbouring cell, whose exact count is 1 |
| MinesweeperV2.AddAdjacent | kata/src/main_v2.py:117-119 | one mine's step: each adjacent position that is not a listed mine gains one, and nothing else changes |
| MinesweeperV2.AdjacentMineCounts | kata/src/main_v2.py:115-119 | the table has a key exactly for each non-mine position reached at least once, holding the number of times it is reached, and every key is in bounds |
| MinesweeperV2.WriteCounts | kata/src/main_v2.py:121-122 | every counted cell shows its count in decimal, and the other cells are unchanged |
| MinesweeperV2.AccLabelIsLabel | kata/src/main_v2.py:112-122 | for a duplicate-free list of in-bounds mines, the grid v2 produces is the exact `Label` grid |
| MinesweeperV2.NumberGrid | kata/src/main_v2.py:112-122 | marks, accumulates and writes. Every cell holds `AccLabel`, and it holds the exact `Label` when the mines are distinct |
| MinesweeperV2.WithNumbers | kata/src/main_v2.py:99-124 | every cell holds `AccLabel` of the given or drawn mines. It holds the exact orthogonal `Label` when the given list has no repetition or the mines are drawn, and a draw places between 1 and total//4 mines |
| MinesweeperV2.WithAdjacentMines | kata/src/main_v2.py:126-150 | every cell holds the exact 8-direction `Label` of the drawn mines, and the number of `"*"` cells equals the number drawn |

## Left out

- Random choice: `random.randint`, `random.sample` and `random.choice` are parameters constrained by preconditions. Uniformity of the draws is not stated.
- Runtime errors: `randint`, `sample` or `choice` fail on boards too small for the requested draw. These failures are preconditions, not error results, because the code has no error path of its own.
- Negative coordinates: Python wraps a negative index to the far row or column. Explicit mine positions must lie on the board instead.
- Positions given as lists rather than tuples: v2's `in mines` test then never matches. Positions are pairs in the model.
- The mutable default arguments and the `mines` argument of `minesweeper_random`: the model has no defaults, and `Random` has no `mines` parameter because the code never reads it.
- The row layout: the model keeps one `array2` where the code keeps a list of separate row lists. No row is ever shared between grids.
- Set iteration order: the order in which Python iterates `set(random.sample(...))` is not modelled. The model walks the duplicate-free sample instead, which visits the same positions once each.
- `gridSize` values other than a missing size or a pair `[rows, cols]` of naturals are not modelled.
- MinesweeperV2.WithNumbers: with an explicit list that repeats a position, the contract states the accumulated labels (`AccLabel`) rather than the exact counts, because the code counts such a mine once per listing.
