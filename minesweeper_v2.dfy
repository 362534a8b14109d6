/** The second version of the grid generator (kata/src/main_v2.py): the same
    operations, built on two pure helpers (`generate_positions`,
    `get_adjacent_positions`), with the numbered grids computed mine by mine
    into a table of counts instead of cell by cell. The random draws are
    parameters, as in MinesweeperV1. A Python set built from a random sample
    is iterated here in the sample's own order: the
    sample is duplicate-free, so the set holds the same positions and Python's
    iteration order is unspecified anyway. */
module MinesweeperV2 {
  import opened Board

  // ---------------------------------------------------------------------------
  // Helpers

  /** Every position of the board in row-major order: the entry at index k is
      the position whose row-major rank is k. */
  function GeneratePositions(rows: nat, cols: nat): (r: seq<Pos>)
    ensures |r| == rows * cols
    ensures forall k :: 0 <= k < |r| ==> InBounds(r[k], rows, cols) && r[k].0 * cols + r[k].1 == k
  {
    if rows == 0 then []
    else
      var init := GeneratePositions(rows - 1, cols);
      assert (rows - 1) * cols + cols == rows * cols;
      init + seq(cols, j requires 0 <= j < cols => (rows - 1, j))
  }

  lemma RankBelowTotal(p: Pos, rows: nat, cols: nat)
    requires InBounds(p, rows, cols)
    ensures p.0 * cols + p.1 < rows * cols
  {
    assert (p.0 + 1) * cols <= rows * cols;
  }

  lemma RankInjective(p: Pos, q: Pos, cols: nat)
    requires 0 <= p.1 < cols && 0 <= q.1 < cols
    requires p.0 * cols + p.1 == q.0 * cols + q.1
    ensures p == q
  {
    assert p.0 < q.0 ==> (p.0 + 1) * cols <= q.0 * cols;
    assert q.0 < p.0 ==> (q.0 + 1) * cols <= p.0 * cols;
  }

  /** `generate_positions` lists each in-bounds position exactly once, and nothing else. */
  lemma PositionsAreTheBoard(rows: nat, cols: nat)
    ensures Distinct(GeneratePositions(rows, cols))
    ensures forall p :: p in GeneratePositions(rows, cols) <==> InBounds(p, rows, cols)
  {
    var r := GeneratePositions(rows, cols);
    forall p | InBounds(p, rows, cols) ensures p in r {
      var k := p.0 * cols + p.1;
      RankBelowTotal(p, rows, cols);
      RankInjective(r[k], p, cols);
    }
  }

  /** The positions `p + d`, d in dirs, that lie on the board, in the order of `dirs`. */
  function InBoundsShifts(p: Pos, dirs: seq<Pos>, rows: int, cols: int): (r: seq<Pos>)
    ensures |r| <= |dirs|
    ensures forall q :: q in r <==> InBounds(q, rows, cols) && Offset(p, q) in dirs
    ensures Distinct(dirs) ==> Distinct(r)
  {
    if dirs == [] then []
    else
      var q := Shift(p, dirs[0]);
      assert Offset(p, q) == dirs[0];
      assert forall d :: d in dirs <==> d == dirs[0] || d in dirs[1..];
      (if InBounds(q, rows, cols) then [q] else []) + InBoundsShifts(p, dirs[1..], rows, cols)
  }

  /** `get_adjacent_positions`: the in-bounds neighbours of (i, j), each once,
      never (i, j) itself; at most 4 at Manhattan distance 1 without diagonals,
      at most 8 at Chebyshev distance 1 with them. */
  function AdjacentPositions(i: int, j: int, rows: int, cols: int, includeDiagonals: bool): (r: seq<Pos>)
    ensures forall q :: q in r <==> InBounds(q, rows, cols) && Adjacent((i, j), q, includeDiagonals)
    ensures Distinct(r) && (i, j) !in r
    ensures |r| <= if includeDiagonals then 8 else 4
  {
    assert Distinct(Directions(includeDiagonals)) && |Directions(includeDiagonals)| == if includeDiagonals then 8 else 4;
    assert forall q :: Offset((i, j), q) in Directions(includeDiagonals) <==> Adjacent((i, j), q, includeDiagonals) by {
      forall q ensures Offset((i, j), q) in Directions(includeDiagonals) <==> Adjacent((i, j), q, includeDiagonals) {
        DirectionsAreAdjacency((i, j), q, includeDiagonals);
      }
    }
    InBoundsShifts((i, j), Directions(includeDiagonals), rows, cols)
  }

  lemma AdjacentPositionsAreNeighbours(p: Pos, rows: nat, cols: nat, includeDiagonals: bool)
    ensures Elements(AdjacentPositions(p.0, p.1, rows, cols, includeDiagonals)) == Neighbours(p, rows, cols, includeDiagonals)
  {
    forall q ensures q in AdjacentPositions(p.0, p.1, rows, cols, includeDiagonals) <==> q in Neighbours(p, rows, cols, includeDiagonals) {
      InNeighbours(p, q, rows, cols, includeDiagonals);
    }
  }

  // ---------------------------------------------------------------------------
  // Operations that place mines and "1" cells

  /** Places mines at exactly the given positions; every other cell is ".". */
  method Basic(gs: GridSize, mines: seq<Pos>) returns (grid: array2<string>)
    requires gs.Size? ==> AllInBounds(mines, gs.rows, gs.cols)
    ensures fresh(grid) && grid.Length0 == Rows(gs) && grid.Length1 == Cols(gs)
    ensures forall i, j :: 0 <= i < grid.Length0 && 0 <= j < grid.Length1 ==>
              grid[i, j] == if (i, j) in mines then Mine else Empty
  {
    if gs.Missing? {
      grid := new string[0, 0];
      return;
    }
    grid := NewGrid(gs.rows, gs.cols);
    Mark(grid, mines, Mine);
  }

  /** One random mine, optionally with "1" cells next to it, or several random
      mines; the draws are as in MinesweeperV1.Random. */
  method Random(gs: GridSize, ones: int, multipleMines: bool, multipleOnes: bool,
                sampledMines: seq<Pos>, chosenMine: Pos, sampledOnes: seq<Pos>, chosenOne: Pos)
    returns (grid: array2<string>)
    requires gs.Size? && multipleMines ==> MinesDrawn(sampledMines, 2, MaxMines(gs.rows * gs.cols), gs.rows, gs.cols)
    requires gs.Size? && !multipleMines ==>
               InBounds(chosenMine, gs.rows, gs.cols) &&
               OnesDrawn(ones, multipleOnes, chosenMine, sampledOnes, chosenOne, gs.rows, gs.cols)
    ensures fresh(grid) && grid.Length0 == Rows(gs) && grid.Length1 == Cols(gs)
    ensures gs.Size? && multipleMines ==>
              (forall i, j :: 0 <= i < grid.Length0 && 0 <= j < grid.Length1 ==>
                 grid[i, j] == if (i, j) in sampledMines then Mine else Empty) &&
              CellsLabelled(grid, Mine) == Elements(sampledMines) &&
              2 <= |CellsLabelled(grid, Mine)| <= MaxMines(gs.rows * gs.cols)
    ensures gs.Size? && !multipleMines ==>
              var placed := SingleMineOnes(ones, multipleOnes, chosenMine, sampledOnes, chosenOne, gs.rows, gs.cols);
              (forall i, j :: 0 <= i < grid.Length0 && 0 <= j < grid.Length1 ==>
                 grid[i, j] == if (i, j) == chosenMine then Mine else if (i, j) in placed then One else Empty) &&
              CellsLabelled(grid, Mine) == {chosenMine} &&
              CellsLabelled(grid, One) == placed
  {
    if gs.Missing? {
      grid := new string[0, 0];
      return;
    }
    var rows, cols := gs.rows, gs.cols;
    grid := NewGrid(rows, cols);
    if multipleMines {
      Mark(grid, sampledMines, Mine);
      forall p ensures p in CellsLabelled(grid, Mine) <==> p in Elements(sampledMines) {
        InCellsLabelled(grid, Mine, p);
      }
      ElementsOfDistinct(sampledMines);
    } else {
      PlaceSingleMine(grid, ones, multipleOnes, chosenMine, sampledOnes, chosenOne);
      ghost var placed := SingleMineOnes(ones, multipleOnes, chosenMine, sampledOnes, chosenOne, rows, cols);
      forall p ensures (p in CellsLabelled(grid, Mine) <==> p == chosenMine) && (p in CellsLabelled(grid, One) <==> p in placed) {
        InCellsLabelled(grid, Mine, p);
        InCellsLabelled(grid, One, p);
      }
    }
  }

  /** The single-mine mode of `random` on an all-"." grid: the mine, then, when
      ones are asked for and the mine has adjacent positions, either the sampled
      ones or the one chosen among those positions. */
  method PlaceSingleMine(grid: array2<string>, ones: int, multipleOnes: bool,
                         chosenMine: Pos, sampledOnes: seq<Pos>, chosenOne: Pos)
    requires InBounds(chosenMine, grid.Length0, grid.Length1)
    requires OnesDrawn(ones, multipleOnes, chosenMine, sampledOnes, chosenOne, grid.Length0, grid.Length1)
    requires forall i, j :: 0 <= i < grid.Length0 && 0 <= j < grid.Length1 ==> grid[i, j] == Empty
    modifies grid
    ensures var placed := SingleMineOnes(ones, multipleOnes, chosenMine, sampledOnes, chosenOne, grid.Length0, grid.Length1);
            forall i, j :: 0 <= i < grid.Length0 && 0 <= j < grid.Length1 ==>
              grid[i, j] == if (i, j) == chosenMine then Mine else if (i, j) in placed then One else Empty
  {
    var rows, cols := grid.Length0, grid.Length1;
    grid[chosenMine.0, chosenMine.1] := Mine;
    ghost var placed := SingleMineOnes(ones, multipleOnes, chosenMine, sampledOnes, chosenOne, rows, cols);
    SingleMineOnesPlacement(ones, multipleOnes, chosenMine, sampledOnes, chosenOne, rows, cols);
    if ones > 0 || multipleOnes {
      var adjacent := AdjacentPositions(chosenMine.0, chosenMine.1, rows, cols, false);
      AdjacentPositionsAreNeighbours(chosenMine, rows, cols, false);
      if |adjacent| > 0 {
        assert adjacent[0] in Neighbours(chosenMine, rows, cols, false);
        if multipleOnes {
          forall k | 0 <= k < |sampledOnes| ensures InBounds(sampledOnes[k], rows, cols) {
            assert sampledOnes[k] in placed;
          }
          Mark(grid, sampledOnes, One);
        } else {
          grid[chosenOne.0, chosenOne.1] := One;
        }
      } else {
        assert Neighbours(chosenMine, rows, cols, false) == {};
      }
    }
  }

  /** The cells that may receive a "1": for every mine, its in-bounds orthogonal
      neighbours that are still ".". */
  method OneCandidates(grid: array2<string>, mines: seq<Pos>) returns (candidates: set<Pos>)
    requires AllInBounds(mines, grid.Length0, grid.Length1)
    requires forall i, j :: 0 <= i < grid.Length0 && 0 <= j < grid.Length1 ==> (grid[i, j] == Empty <==> (i, j) !in mines)
    ensures candidates == Frontier(Elements(mines), grid.Length0, grid.Length1)
  {
    var rows, cols := grid.Length0, grid.Length1;
    ghost var all := Elements(mines);
    candidates := {};
    for k := 0 to |mines|
      invariant forall q :: q in candidates <==> InBounds(q, rows, cols) && q !in all && NextToMine(q, Elements(mines[..k]))
    {
      var m := mines[k];
      var adjacent := AdjacentPositions(m.0, m.1, rows, cols, false);
      candidates := candidates + set q | q in adjacent && grid[q.0, q.1] == Empty;
      NextToMinePrefix(mines, k);
    }
    assert mines[..|mines|] == mines;
    forall q ensures q in candidates <==> q in Frontier(all, rows, cols) {
      InFrontier(q, all, rows, cols);
    }
  }

  /** Several random mines plus "1" cells drawn only from the empty orthogonal
      neighbours of mines, in one pass. */
  method RandomRevised(gs: GridSize, sampledMines: seq<Pos>, sampledOnes: seq<Pos>) returns (grid: array2<string>)
    requires gs.Size? ==>
               MinesDrawn(sampledMines, 1, MaxMines(gs.rows * gs.cols), gs.rows, gs.cols) &&
               FrontierOnesDrawn(sampledOnes, Elements(sampledMines), gs.rows, gs.cols)
    ensures fresh(grid) && grid.Length0 == Rows(gs) && grid.Length1 == Cols(gs)
    ensures gs.Size? ==>
              forall i, j :: 0 <= i < grid.Length0 && 0 <= j < grid.Length1 ==>
                grid[i, j] == if (i, j) in sampledMines then Mine else if (i, j) in sampledOnes then One else Empty
    ensures gs.Size? ==>
              CellsLabelled(grid, Mine) == Elements(sampledMines) &&
              0 < |CellsLabelled(grid, Mine)| <= MaxMines(gs.rows * gs.cols) < gs.rows * gs.cols
    ensures gs.Size? ==>
              CellsLabelled(grid, One) == Elements(sampledOnes) &&
              (forall p :: p in CellsLabelled(grid, One) ==> NextToMine(p, CellsLabelled(grid, Mine))) &&
              var frontier := Frontier(CellsLabelled(grid, Mine), gs.rows, gs.cols);
              (frontier != {} ==> 1 <= |CellsLabelled(grid, One)| <= |frontier|)
  {
    if gs.Missing? {
      grid := new string[0, 0];
      return;
    }
    var rows, cols := gs.rows, gs.cols;
    grid := NewGrid(rows, cols);
    Mark(grid, sampledMines, Mine);
    var candidates := OneCandidates(grid, sampledMines);
    ghost var all := Elements(sampledMines);
    forall k | 0 <= k < |sampledOnes| ensures InBounds(sampledOnes[k], rows, cols) && sampledOnes[k] !in sampledMines {
      assert sampledOnes[k] in Elements(sampledOnes);
      InFrontier(sampledOnes[k], all, rows, cols);
    }
    ElementsOfDistinct(sampledOnes);
    if candidates != {} {
      Mark(grid, sampledOnes, One);
    } else {
      assert |Elements(sampledOnes)| == 0;
    }
    forall p ensures (p in CellsLabelled(grid, Mine) <==> p in all) && (p in CellsLabelled(grid, One) <==> p in Elements(sampledOnes)) {
      InCellsLabelled(grid, Mine, p);
      InCellsLabelled(grid, One, p);
    }
    ElementsOfDistinct(sampledMines);
    forall p | p in CellsLabelled(grid, One) ensures NextToMine(p, CellsLabelled(grid, Mine)) {
      InFrontier(p, all, rows, cols);
    }
    SubsetCard(Elements(sampledOnes), Frontier(all, rows, cols));
  }

  // ---------------------------------------------------------------------------
  // Numbered grids: counts accumulated mine by mine

  /** How many times walking `mines`, and the adjacent positions of each (the
      in-bounds cells next to it, as `AdjacentPositions` proves), reaches `q`: a
      position listed twice is counted twice. */
  function AccCount(q: Pos, mines: seq<Pos>, rows: nat, cols: nat, includeDiagonals: bool): nat
  {
    if mines == [] then 0
    else
      var m := mines[|mines| - 1];
      AccCount(q, mines[..|mines| - 1], rows, cols, includeDiagonals) +
      (if InBounds(q, rows, cols) && Adjacent(m, q, includeDiagonals) then 1 else 0)
  }

  /** Walking the mines counts, for an in-bounds cell, the entries of the list
      that are among the cell's own neighbours: the neighbour relation is
      symmetric. */
  lemma {:induction false} AccCountIsCountIn(q: Pos, mines: seq<Pos>, rows: nat, cols: nat, includeDiagonals: bool)
    requires InBounds(q, rows, cols) && AllInBounds(mines, rows, cols)
    ensures AccCount(q, mines, rows, cols, includeDiagonals) == CountIn(mines, Neighbours(q, rows, cols, includeDiagonals))
  {
    if mines != [] {
      var m := mines[|mines| - 1];
      AccCountIsCountIn(q, mines[..|mines| - 1], rows, cols, includeDiagonals);
      AdjacentSymmetric(m, q, includeDiagonals);
      InNeighbours(q, m, rows, cols, includeDiagonals);
    }
  }

  /** For a duplicate-free list of in-bounds mines, the mine-centric accumulation
      gives every in-bounds cell its exact neighbour count. */
  lemma AccumulatedCountIsMineCount(q: Pos, mines: seq<Pos>, rows: nat, cols: nat, includeDiagonals: bool)
    requires InBounds(q, rows, cols) && AllInBounds(mines, rows, cols) && Distinct(mines)
    ensures AccCount(q, mines, rows, cols, includeDiagonals) == MineCount(q, Elements(mines), rows, cols, includeDiagonals)
  {
    AccCountIsCountIn(q, mines, rows, cols, includeDiagonals);
    CountInDistinct(mines, Neighbours(q, rows, cols, includeDiagonals));
    assert Elements(mines) * Neighbours(q, rows, cols, includeDiagonals) == Neighbours(q, rows, cols, includeDiagonals) * Elements(mines);
  }

  /** The cell-centric scan of main_v1.py (walk the cell's offsets, count the mines
      met) and the mine-centric accumulation of main_v2.py (walk each mine's
      adjacent positions, add one to each) give every in-bounds cell the same
      count, for the same duplicate-free list of in-bounds mines. The scan may
      walk the offsets in any order without repetition: main_v1.py walks
      `OrthogonalDirections` for the orthogonal count and `EightDirections` for
      the full one. */
  lemma ScanAndAccumulationAgree(q: Pos, dirs: seq<Pos>, mines: seq<Pos>, rows: nat, cols: nat, includeDiagonals: bool)
    requires Distinct(dirs) && forall d :: d in dirs <==> d in Directions(includeDiagonals)
    requires InBounds(q, rows, cols) && AllInBounds(mines, rows, cols) && Distinct(mines)
    ensures CountIn(Shifts(q, dirs), Elements(mines) * Cells(rows, cols))
            == AccCount(q, mines, rows, cols, includeDiagonals)
  {
    ScanCountIsMineCount(q, dirs, Elements(mines), rows, cols, includeDiagonals);
    AccumulatedCountIsMineCount(q, mines, rows, cols, includeDiagonals);
  }

  /** A list that names the mine `m` n times. */
  function Copies(m: Pos, n: nat): seq<Pos>
  {
    seq(n, _ => m)
  }

  /** A position listed n times is counted n times: the accumulation reaches a
      cell next to a mine that is listed n times once per listing, although the
      cell has a single neighbouring mine. */
  lemma {:induction false} RepeatedMineCountedRepeatedly(q: Pos, m: Pos, n: nat, rows: nat, cols: nat, includeDiagonals: bool)
    requires InBounds(q, rows, cols) && InBounds(m, rows, cols) && Adjacent(m, q, includeDiagonals)
    ensures AccCount(q, Copies(m, n), rows, cols, includeDiagonals) == n
    ensures n >= 1 ==> MineCount(q, Elements(Copies(m, n)), rows, cols, includeDiagonals) == 1
  {
    if n >= 1 {
      RepeatedMineCountedRepeatedly(q, m, n - 1, rows, cols, includeDiagonals);
      assert Copies(m, n)[..n - 1] == Copies(m, n - 1);
      assert Copies(m, n)[0] == m && Elements(Copies(m, n)) == {m};
      InNeighbours(q, m, rows, cols, includeDiagonals);
      AdjacentSymmetric(m, q, includeDiagonals);
      assert Neighbours(q, rows, cols, includeDiagonals) * {m} == {m};
    }
  }

  /** One mine's step of the accumulation: walking the mine's adjacent
      positions, add one to the count of each that is not itself a listed mine. */
  method AddAdjacent(counts: map<Pos, nat>, adjacent: seq<Pos>, mines: seq<Pos>) returns (updated: map<Pos, nat>)
    requires Distinct(adjacent)
    ensures forall q :: q in updated <==> q in counts || (q !in mines && q in adjacent)
    ensures forall q :: q in updated ==>
              updated[q] == (if q in counts then counts[q] else 0) + (if q !in mines && q in adjacent then 1 else 0)
  {
    updated := counts;
    for t := 0 to |adjacent|
      invariant forall q :: q in updated <==> q in counts || (q !in mines && q in adjacent[..t])
      invariant forall q :: q in updated ==>
                  updated[q] == (if q in counts then counts[q] else 0) + (if q !in mines && q in adjacent[..t] then 1 else 0)
    {
      var q := adjacent[t];
      assert adjacent[..t + 1] == adjacent[..t] + [q];
      assert q !in adjacent[..t];
      if q !in mines {
        updated := updated[q := (if q in updated then updated[q] else 0) + 1];
      }
    }
    assert adjacent[..|adjacent|] == adjacent;
  }

  lemma AccCountStep(q: Pos, mines: seq<Pos>, k: nat, rows: nat, cols: nat, includeDiagonals: bool)
    requires k < |mines|
    ensures AccCount(q, mines[..k + 1], rows, cols, includeDiagonals) ==
            AccCount(q, mines[..k], rows, cols, includeDiagonals) +
            (if q in AdjacentPositions(mines[k].0, mines[k].1, rows, cols, includeDiagonals) then 1 else 0)
  {
    assert mines[..k + 1][..k] == mines[..k];
  }

  /** `adjacent_mine_counts`: for every mine and each of its adjacent positions
      that is not itself a mine, add one to that position's count. */
  method AdjacentMineCounts(mines: seq<Pos>, rows: nat, cols: nat, includeDiagonals: bool) returns (counts: map<Pos, nat>)
    ensures forall q :: q in counts <==> q !in mines && AccCount(q, mines, rows, cols, includeDiagonals) > 0
    ensures forall q :: q in counts ==> counts[q] == AccCount(q, mines, rows, cols, includeDiagonals) && InBounds(q, rows, cols)
  {
    counts := map[];
    for k := 0 to |mines|
      invariant forall q :: q in counts <==> q !in mines && AccCount(q, mines[..k], rows, cols, includeDiagonals) > 0
      invariant forall q :: q in counts ==> counts[q] == AccCount(q, mines[..k], rows, cols, includeDiagonals) && InBounds(q, rows, cols)
    {
      var adjacent := AdjacentPositions(mines[k].0, mines[k].1, rows, cols, includeDiagonals);
      counts := AddAdjacent(counts, adjacent, mines);
      forall q ensures AccCount(q, mines[..k + 1], rows, cols, includeDiagonals) ==
                       AccCount(q, mines[..k], rows, cols, includeDiagonals) +
                       (if q in AdjacentPositions(mines[k].0, mines[k].1, rows, cols, includeDiagonals) then 1 else 0) {
        AccCountStep(q, mines, k, rows, cols, includeDiagonals);
      }
    }
    assert mines[..|mines|] == mines;
  }

  /** Writes every accumulated count, in decimal, into its cell; cells without a
      count keep what they held. */
  method WriteCounts(grid: array2<string>, counts: map<Pos, nat>)
    requires forall q :: q in counts ==> InBounds(q, grid.Length0, grid.Length1)
    modifies grid
    ensures forall i, j :: 0 <= i < grid.Length0 && 0 <= j < grid.Length1 ==>
              grid[i, j] == if (i, j) in counts then Str(counts[(i, j)]) else old(grid[i, j])
  {
    var remaining := counts.Keys;
    while remaining != {}
      invariant remaining <= counts.Keys
      invariant forall i, j :: 0 <= i < grid.Length0 && 0 <= j < grid.Length1 ==>
                  grid[i, j] == if (i, j) in counts && (i, j) !in remaining then Str(counts[(i, j)]) else old(grid[i, j])
      decreases remaining
    {
      var q :| q in remaining;
      grid[q.0, q.1] := Str(counts[q]);
      remaining := remaining - {q};
    }
  }

  /** The grid main_v2.py's numbering produces for a list of mines: "*" on the
      listed cells, the accumulated count where it is positive, "." elsewhere. */
  function AccLabel(p: Pos, mines: seq<Pos>, rows: nat, cols: nat, includeDiagonals: bool): string
  {
    if p in mines then Mine
    else
      var c := AccCount(p, mines, rows, cols, includeDiagonals);
      if c > 0 then Str(c) else Empty
  }

  /** For a duplicate-free list of in-bounds mines, the accumulated labels are
      the exact labels of the mine set. */
  lemma AccLabelIsLabel(mines: seq<Pos>, rows: nat, cols: nat, includeDiagonals: bool)
    requires AllInBounds(mines, rows, cols) && Distinct(mines)
    ensures forall i, j :: 0 <= i < rows && 0 <= j < cols ==>
              AccLabel((i, j), mines, rows, cols, includeDiagonals) == Label((i, j), Elements(mines), rows, cols, includeDiagonals)
  {
    forall i, j | 0 <= i < rows && 0 <= j < cols
      ensures AccLabel((i, j), mines, rows, cols, includeDiagonals) == Label((i, j), Elements(mines), rows, cols, includeDiagonals)
    {
      AccumulatedCountIsMineCount((i, j), mines, rows, cols, includeDiagonals);
    }
  }

  /** Marks the mines, accumulates the counts and writes them: the grid holds
      `AccLabel` everywhere, which is the exact orthogonal count when the mines
      are listed without repetition (always so for a random draw). */
  method NumberGrid(grid: array2<string>, mines: seq<Pos>, includeDiagonals: bool)
    requires AllInBounds(mines, grid.Length0, grid.Length1)
    requires forall i, j :: 0 <= i < grid.Length0 && 0 <= j < grid.Length1 ==> grid[i, j] == Empty
    modifies grid
    ensures forall i, j :: 0 <= i < grid.Length0 && 0 <= j < grid.Length1 ==>
              grid[i, j] == AccLabel((i, j), mines, grid.Length0, grid.Length1, includeDiagonals)
    ensures Distinct(mines) ==>
              forall i, j :: 0 <= i < grid.Length0 && 0 <= j < grid.Length1 ==>
                grid[i, j] == Label((i, j), Elements(mines), grid.Length0, grid.Length1, includeDiagonals)
  {
    var rows, cols := grid.Length0, grid.Length1;
    Mark(grid, mines, Mine);
    var counts := AdjacentMineCounts(mines, rows, cols, includeDiagonals);
    WriteCounts(grid, counts);
    if Distinct(mines) {
      AccLabelIsLabel(mines, rows, cols, includeDiagonals);
    }
  }

  /** Marks the mines (the explicit list, or a random draw when it is empty) and
      labels the cells next to them with their orthogonal counts. */
  method WithNumbers(gs: GridSize, mines: seq<Pos>, sampledMines: seq<Pos>) returns (grid: array2<string>)
    requires gs.Size? && mines == [] ==> MinesDrawn(sampledMines, 1, gs.rows * gs.cols / 4, gs.rows, gs.cols)
    requires gs.Size? ==> AllInBounds(mines, gs.rows, gs.cols)
    ensures fresh(grid) && grid.Length0 == Rows(gs) && grid.Length1 == Cols(gs)
    ensures gs.Size? ==>
              var list := if mines == [] then sampledMines else mines;
              forall i, j :: 0 <= i < grid.Length0 && 0 <= j < grid.Length1 ==>
                grid[i, j] == AccLabel((i, j), list, gs.rows, gs.cols, false)
    ensures gs.Size? && (mines == [] || Distinct(mines)) ==>
              var list := if mines == [] then sampledMines else mines;
              forall i, j :: 0 <= i < grid.Length0 && 0 <= j < grid.Length1 ==>
                grid[i, j] == Label((i, j), Elements(list), gs.rows, gs.cols, false)
    ensures gs.Size? && mines == [] ==> 1 <= |CellsLabelled(grid, Mine)| <= gs.rows * gs.cols / 4
  {
    if gs.Missing? {
      grid := new string[0, 0];
      return;
    }
    var rows, cols := gs.rows, gs.cols;
    grid := NewGrid(rows, cols);
    var list := if mines == [] then sampledMines else mines;
    NumberGrid(grid, list, false);
    if mines == [] {
      NumberedGridMines(grid, Elements(list), false);
      ElementsOfDistinct(sampledMines);
    }
  }

  /** Random mines, every other cell labelled with its exact 8-direction count. */
  method WithAdjacentMines(gs: GridSize, sampledMines: seq<Pos>) returns (grid: array2<string>)
    requires gs.Size? ==> MinesDrawn(sampledMines, 1, gs.rows * gs.cols / 4, gs.rows, gs.cols)
    ensures fresh(grid) && grid.Length0 == Rows(gs) && grid.Length1 == Cols(gs)
    ensures gs.Size? ==>
              forall i, j :: 0 <= i < grid.Length0 && 0 <= j < grid.Length1 ==>
                grid[i, j] == Label((i, j), Elements(sampledMines), gs.rows, gs.cols, true)
    ensures gs.Size? ==> |CellsLabelled(grid, Mine)| == |sampledMines|
  {
    if gs.Missing? {
      grid := new string[0, 0];
      return;
    }
    var rows, cols := gs.rows, gs.cols;
    grid := NewGrid(rows, cols);
    NumberGrid(grid, sampledMines, true);
    NumberedGridMines(grid, Elements(sampledMines), true);
    ElementsOfDistinct(sampledMines);
  }
}
