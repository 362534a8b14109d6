/** The first version of the grid generator (kata/src/main_v1.py). Every operation
    allocates a fresh rows x cols grid of "." and then assigns cells in loops.
    The random draws (`randint`, `sample`, `choice`) are parameters; the ranges
    they are drawn from are preconditions. */
module MinesweeperV1 {
  import opened Board

  /** The eight offsets in the order main_v1.py builds them for the full topology. */
  const EightDirections: seq<Pos> := [(-1, -1), (-1, 0), (-1, 1), (0, -1), (0, 1), (1, -1), (1, 0), (1, 1)]

  lemma EightDirectionsAreFull()
    ensures Distinct(EightDirections)
    ensures forall d :: d in EightDirections <==> d in Directions(true)
  {
  }

  lemma OrthogonalDirectionsDistinct()
    ensures Distinct(OrthogonalDirections)
  {
  }

  /** Places mines at exactly the given positions; every other cell is ".". */
  method Basic(gs: GridSize, mines: seq<Pos>) returns (grid: array2<string>)
    requires gs.Size? ==> AllInBounds(mines, gs.rows, gs.cols)
    ensures fresh(grid) && grid.Length0 == Rows(gs) && grid.Length1 == Cols(gs)
    ensures forall i, j :: 0 <= i < grid.Length0 && 0 <= j < grid.Length1 ==>
              grid[i, j] == if (i, j) in mines then Mine else Empty
  {
    if gs.Missing? {
      grid := new string[0, 0];
      return;
    }
    grid := NewGrid(gs.rows, gs.cols);
    Mark(grid, mines, Mine);
  }

  /** The in-bounds orthogonal neighbours of `p`, collected by walking the four
      directions and appending those inside the board. */
  method OrthogonalNeighbours(p: Pos, rows: nat, cols: nat) returns (adjacent: seq<Pos>)
    ensures Elements(adjacent) == Neighbours(p, rows, cols, false)
    ensures Distinct(adjacent) && |adjacent| <= 4
  {
    adjacent := [];
    for k := 0 to |OrthogonalDirections|
      invariant Distinct(adjacent) && |adjacent| <= k
      invariant forall q :: q in adjacent <==> InBounds(q, rows, cols) && Offset(p, q) in OrthogonalDirections[..k]
    {
      var q := Shift(p, OrthogonalDirections[k]);
      assert Offset(p, q) == OrthogonalDirections[k];
      assert OrthogonalDirections[..k + 1] == OrthogonalDirections[..k] + [OrthogonalDirections[k]];
      if InBounds(q, rows, cols) {
        OrthogonalDirectionsDistinct();
        assert q !in adjacent;
        adjacent := adjacent + [q];
      }
    }
    forall q ensures q in Elements(adjacent) <==> q in Neighbours(p, rows, cols, false) {
      DirectionsAreAdjacency(p, q, false);
      InNeighbours(p, q, rows, cols, false);
    }
  }

  /** One random mine, optionally with "1" cells next to it, or several random mines.
      `sampledMines` is the `multiple_mines` draw; `chosenMine` the single mine;
      `sampledOnes` and `chosenOne` the draws of the "1" cells. */
  method Random(gs: GridSize, ones: int, multipleMines: bool, multipleOnes: bool,
                sampledMines: seq<Pos>, chosenMine: Pos, sampledOnes: seq<Pos>, chosenOne: Pos)
    returns (grid: array2<string>)
    requires gs.Size? && multipleMines ==> MinesDrawn(sampledMines, 2, MaxMines(gs.rows * gs.cols), gs.rows, gs.cols)
    requires gs.Size? && !multipleMines ==>
               InBounds(chosenMine, gs.rows, gs.cols) &&
               OnesDrawn(ones, multipleOnes, chosenMine, sampledOnes, chosenOne, gs.rows, gs.cols)
    ensures fresh(grid) && grid.Length0 == Rows(gs) && grid.Length1 == Cols(gs)
    ensures gs.Size? && multipleMines ==>
              (forall i, j :: 0 <= i < grid.Length0 && 0 <= j < grid.Length1 ==>
                 grid[i, j] == if (i, j) in sampledMines then Mine else Empty) &&
              CellsLabelled(grid, Mine) == Elements(sampledMines) &&
              2 <= |CellsLabelled(grid, Mine)| <= MaxMines(gs.rows * gs.cols)
    ensures gs.Size? && !multipleMines ==>
              var placed := SingleMineOnes(ones, multipleOnes, chosenMine, sampledOnes, chosenOne, gs.rows, gs.cols);
              (forall i, j :: 0 <= i < grid.Length0 && 0 <= j < grid.Length1 ==>
                 grid[i, j] == if (i, j) == chosenMine then Mine else if (i, j) in placed then One else Empty) &&
              CellsLabelled(grid, Mine) == {chosenMine} &&
              CellsLabelled(grid, One) == placed
  {
    if gs.Missing? {
      grid := new string[0, 0];
      return;
    }
    var rows, cols := gs.rows, gs.cols;
    grid := NewGrid(rows, cols);
    if multipleMines {
      Mark(grid, sampledMines, Mine);
      forall p ensures p in CellsLabelled(grid, Mine) <==> p in Elements(sampledMines) {
        InCellsLabelled(grid, Mine, p);
      }
      ElementsOfDistinct(sampledMines);
    } else {
      PlaceSingleMine(grid, ones, multipleOnes, chosenMine, sampledOnes, chosenOne);
      ghost var placed := SingleMineOnes(ones, multipleOnes, chosenMine, sampledOnes, chosenOne, rows, cols);
      forall p ensures (p in CellsLabelled(grid, Mine) <==> p == chosenMine) && (p in CellsLabelled(grid, One) <==> p in placed) {
        InCellsLabelled(grid, Mine, p);
        InCellsLabelled(grid, One, p);
      }
    }
  }

  /** The single-mine mode of `random` on an all-"." grid: the mine, then, when
      ones are asked for and the mine has orthogonal neighbours, either the
      sampled ones or the one chosen among those neighbours. */
  method PlaceSingleMine(grid: array2<string>, ones: int, multipleOnes: bool,
                         chosenMine: Pos, sampledOnes: seq<Pos>, chosenOne: Pos)
    requires InBounds(chosenMine, grid.Length0, grid.Length1)
    requires OnesDrawn(ones, multipleOnes, chosenMine, sampledOnes, chosenOne, grid.Length0, grid.Length1)
    requires forall i, j :: 0 <= i < grid.Length0 && 0 <= j < grid.Length1 ==> grid[i, j] == Empty
    modifies grid
    ensures var placed := SingleMineOnes(ones, multipleOnes, chosenMine, sampledOnes, chosenOne, grid.Length0, grid.Length1);
            forall i, j :: 0 <= i < grid.Length0 && 0 <= j < grid.Length1 ==>
              grid[i, j] == if (i, j) == chosenMine then Mine else if (i, j) in placed then One else Empty
  {
    var rows, cols := grid.Length0, grid.Length1;
    grid[chosenMine.0, chosenMine.1] := Mine;
    ghost var placed := SingleMineOnes(ones, multipleOnes, chosenMine, sampledOnes, chosenOne, rows, cols);
    SingleMineOnesPlacement(ones, multipleOnes, chosenMine, sampledOnes, chosenOne, rows, cols);
    if ones > 0 || multipleOnes {
      var adjacent := OrthogonalNeighbours(chosenMine, rows, cols);
      if |adjacent| > 0 {
        assert adjacent[0] in Neighbours(chosenMine, rows, cols, false);
        if multipleOnes {
          forall k | 0 <= k < |sampledOnes| ensures InBounds(sampledOnes[k], rows, cols) {
            assert sampledOnes[k] in placed;
          }
          Mark(grid, sampledOnes, One);
        } else {
          grid[chosenOne.0, chosenOne.1] := One;
        }
      } else {
        assert Neighbours(chosenMine, rows, cols, false) == {};
      }
    }
  }

  /** One mine's step of the candidate search: walk the four directions around
      `m` and add each in-bounds cell that is still ".". */
  method AddEmptyAround(grid: array2<string>, m: Pos, candidates: set<Pos>) returns (updated: set<Pos>)
    ensures forall q :: q in updated <==>
              q in candidates ||
              (InBounds(q, grid.Length0, grid.Length1) && grid[q.0, q.1] == Empty && Offset(m, q) in OrthogonalDirections)
  {
    updated := candidates;
    for d := 0 to |OrthogonalDirections|
      invariant forall q :: q in updated <==>
                  q in candidates ||
                  (InBounds(q, grid.Length0, grid.Length1) && grid[q.0, q.1] == Empty && Offset(m, q) in OrthogonalDirections[..d])
    {
      var q := Shift(m, OrthogonalDirections[d]);
      assert Offset(m, q) == OrthogonalDirections[d];
      assert OrthogonalDirections[..d + 1] == OrthogonalDirections[..d] + [OrthogonalDirections[d]];
      if InBounds(q, grid.Length0, grid.Length1) && grid[q.0, q.1] == Empty {
        updated := updated + {q};
      }
    }
  }

  /** The cells that may receive a "1": still "." and orthogonally next to a mine,
      gathered by walking the four directions around every mine. */
  method OneCandidates(grid: array2<string>, mines: seq<Pos>) returns (candidates: set<Pos>)
    requires AllInBounds(mines, grid.Length0, grid.Length1)
    requires forall i, j :: 0 <= i < grid.Length0 && 0 <= j < grid.Length1 ==> (grid[i, j] == Empty <==> (i, j) !in mines)
    ensures candidates == Frontier(Elements(mines), grid.Length0, grid.Length1)
  {
    var rows, cols := grid.Length0, grid.Length1;
    ghost var all := Elements(mines);
    candidates := {};
    for k := 0 to |mines|
      invariant forall q :: q in candidates <==> InBounds(q, rows, cols) && q !in all && NextToMine(q, Elements(mines[..k]))
    {
      var m := mines[k];
      candidates := AddEmptyAround(grid, m, candidates);
      NextToMinePrefix(mines, k);
      forall q ensures Offset(m, q) in OrthogonalDirections <==> Orthogonal(m, q) {
        DirectionsAreAdjacency(m, q, false);
      }
    }
    assert mines[..|mines|] == mines;
    forall q ensures q in candidates <==> q in Frontier(all, rows, cols) {
      InFrontier(q, all, rows, cols);
    }
  }

  /** Several random mines plus "1" cells drawn only from the empty orthogonal
      neighbours of mines. */
  method RandomComplete(gs: GridSize, sampledMines: seq<Pos>, sampledOnes: seq<Pos>) returns (grid: array2<string>)
    requires gs.Size? ==>
               MinesDrawn(sampledMines, 1, MaxMines(gs.rows * gs.cols), gs.rows, gs.cols) &&
               FrontierOnesDrawn(sampledOnes, Elements(sampledMines), gs.rows, gs.cols)
    ensures fresh(grid) && grid.Length0 == Rows(gs) && grid.Length1 == Cols(gs)
    ensures gs.Size? ==>
              forall i, j :: 0 <= i < grid.Length0 && 0 <= j < grid.Length1 ==>
                grid[i, j] == if (i, j) in sampledMines then Mine else if (i, j) in sampledOnes then One else Empty
    ensures gs.Size? ==>
              CellsLabelled(grid, Mine) == Elements(sampledMines) &&
              0 < |CellsLabelled(grid, Mine)| <= MaxMines(gs.rows * gs.cols) < gs.rows * gs.cols
    ensures gs.Size? ==>
              CellsLabelled(grid, One) == Elements(sampledOnes) &&
              (forall p :: p in CellsLabelled(grid, One) ==> NextToMine(p, CellsLabelled(grid, Mine))) &&
              var frontier := Frontier(CellsLabelled(grid, Mine), gs.rows, gs.cols);
              (frontier != {} ==> 1 <= |CellsLabelled(grid, One)| <= |frontier|)
  {
    if gs.Missing? {
      grid := new string[0, 0];
      return;
    }
    var rows, cols := gs.rows, gs.cols;
    grid := NewGrid(rows, cols);
    Mark(grid, sampledMines, Mine);
    var candidates := OneCandidates(grid, sampledMines);
    ghost var all := Elements(sampledMines);
    forall k | 0 <= k < |sampledOnes| ensures InBounds(sampledOnes[k], rows, cols) && sampledOnes[k] !in sampledMines {
      assert sampledOnes[k] in Elements(sampledOnes);
      InFrontier(sampledOnes[k], all, rows, cols);
    }
    ElementsOfDistinct(sampledOnes);
    if candidates != {} {
      Mark(grid, sampledOnes, One);
    } else {
      assert |Elements(sampledOnes)| == 0;
    }
    forall p ensures (p in CellsLabelled(grid, Mine) <==> p in all) && (p in CellsLabelled(grid, One) <==> p in Elements(sampledOnes)) {
      InCellsLabelled(grid, Mine, p);
      InCellsLabelled(grid, One, p);
    }
    ElementsOfDistinct(sampledMines);
    forall p | p in CellsLabelled(grid, One) ensures NextToMine(p, CellsLabelled(grid, Mine)) {
      InFrontier(p, all, rows, cols);
    }
    SubsetCard(Elements(sampledOnes), Frontier(all, rows, cols));
  }

  /** The number of in-bounds orthogonal neighbours of `p` that show "*". */
  method CountMarkedNeighbours(grid: array2<string>, p: Pos) returns (count: nat)
    ensures count == MineCount(p, CellsLabelled(grid, Mine), grid.Length0, grid.Length1, false)
  {
    var rows, cols := grid.Length0, grid.Length1;
    ghost var found := CellsLabelled(grid, Mine) * Cells(rows, cols);
    count := 0;
    for k := 0 to |OrthogonalDirections|
      invariant count == CountIn(Shifts(p, OrthogonalDirections[..k]), found)
    {
      var q := Shift(p, OrthogonalDirections[k]);
      ShiftsSnoc(p, OrthogonalDirections, k);
      InCellsLabelled(grid, Mine, q);
      InCells(q, rows, cols);
      if InBounds(q, rows, cols) && grid[q.0, q.1] == Mine {
        count := count + 1;
      }
    }
    assert OrthogonalDirections[..4] == OrthogonalDirections;
    OrthogonalDirectionsDistinct();
    ScanCountIsMineCount(p, OrthogonalDirections, CellsLabelled(grid, Mine), rows, cols, false);
  }

  /** One step of the orthogonal scan, at (i, j): the cells before it in row-major
      order are labelled and the rest still hold only "*" and "."; a cell that is
      not a mine gets its count, if positive, while a mine is left alone. */
  method NumberCell(grid: array2<string>, i: nat, j: nat, ghost placed: set<Pos>)
    requires i < grid.Length0 && j < grid.Length1
    requires forall a, b :: 0 <= a < grid.Length0 && 0 <= b < grid.Length1 ==>
               grid[a, b] == if a < i || (a == i && b < j) then Label((a, b), placed, grid.Length0, grid.Length1, false)
                             else if (a, b) in placed then Mine else Empty
    modifies grid
    ensures forall a, b :: 0 <= a < grid.Length0 && 0 <= b < grid.Length1 ==>
              grid[a, b] == if a < i || (a == i && b <= j) then Label((a, b), placed, grid.Length0, grid.Length1, false)
                            else if (a, b) in placed then Mine else Empty
  {
    var rows, cols := grid.Length0, grid.Length1;
    if grid[i, j] != Mine {
      forall p ensures p in CellsLabelled(grid, Mine) * Cells(rows, cols) <==> p in placed * Cells(rows, cols) {
        InCellsLabelled(grid, Mine, p);
        InCells(p, rows, cols);
      }
      var count := CountMarkedNeighbours(grid, (i, j));
      MineCountInBounds((i, j), CellsLabelled(grid, Mine), placed, rows, cols, false);
      if count > 0 {
        grid[i, j] := Str(count);
      }
    }
  }

  /** One row of the scan: rows above `i` are already labelled, row `i` and the
      rows below still hold only "*" and "."; afterwards row `i` is labelled too. */
  method NumberRow(grid: array2<string>, i: nat, ghost placed: set<Pos>)
    requires i < grid.Length0
    requires forall a, b :: 0 <= a < grid.Length0 && 0 <= b < grid.Length1 ==>
               grid[a, b] == if a < i then Label((a, b), placed, grid.Length0, grid.Length1, false)
                             else if (a, b) in placed then Mine else Empty
    modifies grid
    ensures forall a, b :: 0 <= a < grid.Length0 && 0 <= b < grid.Length1 ==>
              grid[a, b] == if a <= i then Label((a, b), placed, grid.Length0, grid.Length1, false)
                            else if (a, b) in placed then Mine else Empty
  {
    var rows, cols := grid.Length0, grid.Length1;
    for j := 0 to cols
      invariant forall a, b :: 0 <= a < rows && 0 <= b < cols ==>
                  grid[a, b] == if a < i || (a == i && b < j) then Label((a, b), placed, rows, cols, false)
                                else if (a, b) in placed then Mine else Empty
    {
      NumberCell(grid, i, j, placed);
    }
  }

  /** The cell-by-cell scan: every cell that is not "*" gets its exact orthogonal
      mine count when positive. Counts read only "*" cells, so the digits written
      earlier in the scan do not change later counts. */
  method NumberCells(grid: array2<string>, ghost placed: set<Pos>)
    requires forall i, j :: 0 <= i < grid.Length0 && 0 <= j < grid.Length1 ==>
               grid[i, j] == if (i, j) in placed then Mine else Empty
    modifies grid
    ensures forall i, j :: 0 <= i < grid.Length0 && 0 <= j < grid.Length1 ==>
              grid[i, j] == Label((i, j), placed, grid.Length0, grid.Length1, false)
  {
    var rows, cols := grid.Length0, grid.Length1;
    for i := 0 to rows
      invariant forall a, b :: 0 <= a < rows && 0 <= b < cols ==>
                  grid[a, b] == if a < i then Label((a, b), placed, rows, cols, false)
                                else if (a, b) in placed then Mine else Empty
    {
      NumberRow(grid, i, placed);
    }
  }

  /** Marks the mines (the explicit list, or a random draw when it is empty) and
      labels every other cell with its exact orthogonal mine count. */
  method WithNumbers(gs: GridSize, mines: seq<Pos>, sampledMines: seq<Pos>) returns (grid: array2<string>)
    requires gs.Size? && mines == [] ==> MinesDrawn(sampledMines, 1, gs.rows * gs.cols / 4, gs.rows, gs.cols)
    requires gs.Size? ==> AllInBounds(mines, gs.rows, gs.cols)
    ensures fresh(grid) && grid.Length0 == Rows(gs) && grid.Length1 == Cols(gs)
    ensures gs.Size? ==>
              var placed := Elements(if mines == [] then sampledMines else mines);
              forall i, j :: 0 <= i < grid.Length0 && 0 <= j < grid.Length1 ==>
                grid[i, j] == Label((i, j), placed, gs.rows, gs.cols, false)
    ensures gs.Size? && mines == [] ==> 1 <= |CellsLabelled(grid, Mine)| <= gs.rows * gs.cols / 4
  {
    if gs.Missing? {
      grid := new string[0, 0];
      return;
    }
    var rows, cols := gs.rows, gs.cols;
    grid := NewGrid(rows, cols);
    var list := if mines == [] then sampledMines else mines;
    Mark(grid, list, Mine);
    ghost var placed := Elements(list);
    NumberCells(grid, placed);
    NumberedGridMines(grid, placed, false);
    if mines == [] {
      ElementsOfDistinct(sampledMines);
    }
  }

  /** The number of in-bounds neighbours among the eight around `p` that are mines. */
  method CountMinesAround(mines: set<Pos>, p: Pos, rows: nat, cols: nat) returns (count: nat)
    ensures count == MineCount(p, mines, rows, cols, true)
  {
    ghost var found := mines * Cells(rows, cols);
    count := 0;
    for k := 0 to |EightDirections|
      invariant count == CountIn(Shifts(p, EightDirections[..k]), found)
    {
      var q := Shift(p, EightDirections[k]);
      ShiftsSnoc(p, EightDirections, k);
      InCells(q, rows, cols);
      if InBounds(q, rows, cols) && q in mines {
        count := count + 1;
      }
    }
    assert EightDirections[..8] == EightDirections;
    EightDirectionsAreFull();
    ScanCountIsMineCount(p, EightDirections, mines, rows, cols, true);
  }

  /** The labelling scan of `with_adjacent_mines`: every cell outside the mine
      set that has a mine among its eight neighbours gets that count. */
  method LabelCells(grid: array2<string>, minePositions: set<Pos>)
    requires forall a, b :: 0 <= a < grid.Length0 && 0 <= b < grid.Length1 ==>
               grid[a, b] == if (a, b) in minePositions then Mine else Empty
    modifies grid
    ensures forall a, b :: 0 <= a < grid.Length0 && 0 <= b < grid.Length1 ==>
              grid[a, b] == Label((a, b), minePositions, grid.Length0, grid.Length1, true)
  {
    var rows, cols := grid.Length0, grid.Length1;
    for i := 0 to rows
      invariant forall a, b :: 0 <= a < rows && 0 <= b < cols ==>
                  grid[a, b] == if a < i then Label((a, b), minePositions, rows, cols, true)
                                else if (a, b) in minePositions then Mine else Empty
    {
      for j := 0 to cols
        invariant forall a, b :: 0 <= a < rows && 0 <= b < cols ==>
                    grid[a, b] == if a < i || (a == i && b < j) then Label((a, b), minePositions, rows, cols, true)
                                  else if (a, b) in minePositions then Mine else Empty
      {
        if (i, j) !in minePositions {
          var count := CountMinesAround(minePositions, (i, j), rows, cols);
          if count > 0 {
            grid[i, j] := Str(count);
          }
        }
      }
    }
  }

  /** Random mines, every other cell labelled with its exact 8-direction mine count. */
  method WithAdjacentMines(gs: GridSize, sampledMines: seq<Pos>) returns (grid: array2<string>)
    requires gs.Size? ==> MinesDrawn(sampledMines, 1, gs.rows * gs.cols / 4, gs.rows, gs.cols)
    ensures fresh(grid) && grid.Length0 == Rows(gs) && grid.Length1 == Cols(gs)
    ensures gs.Size? ==>
              forall i, j :: 0 <= i < grid.Length0 && 0 <= j < grid.Length1 ==>
                grid[i, j] == Label((i, j), Elements(sampledMines), gs.rows, gs.cols, true)
    ensures gs.Size? ==> |CellsLabelled(grid, Mine)| == |sampledMines|
  {
    if gs.Missing? {
      grid := new string[0, 0];
      return;
    }
    var rows, cols := gs.rows, gs.cols;
    grid := NewGrid(rows, cols);
    var minePositions := Elements(sampledMines);
    Mark(grid, sampledMines, Mine);
    LabelCells(grid, minePositions);
    NumberedGridMines(grid, minePositions, true);
    ElementsOfDistinct(sampledMines);
  }
}
