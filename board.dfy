/** Vocabulary shared by both versions of the grid generator: positions, board
    shapes, the two neighbour relations, exact mine counts, cell labels, and the
    in-place marking loop every operation uses. */
module Board {

  /** A cell position (row, column), 0-indexed. */
  type Pos = (int, int)

  /** The `gridSize` argument: missing or empty, or a pair [rows, cols]. */
  datatype GridSize = Missing | Size(rows: nat, cols: nat)

  /** Number of rows of the grid produced for `gs` (an unset size gives `[]`). */
  function Rows(gs: GridSize): nat { if gs.Size? then gs.rows else 0 }

  function Cols(gs: GridSize): nat { if gs.Size? then gs.cols else 0 }

  // ---------------------------------------------------------------------------
  // Cell labels

  const Empty: string := "."
  const Mine: string := "*"
  const One: string := "1"

  function DigitChar(d: nat): char
    requires d < 10
  {
    ('0' as int + d) as char
  }

  predicate IsDigit(c: char) { '0' <= c <= '9' }

  /** Decimal rendering of a natural number, as Python's `str`. */
  function Str(n: nat): (s: string)
    ensures |s| > 0 && forall k :: 0 <= k < |s| ==> IsDigit(s[k])
    ensures n < 10 ==> s == [DigitChar(n)]
    decreases n
  {
    if n < 10 then [DigitChar(n)] else Str(n / 10) + [DigitChar(n % 10)]
  }

  /** A rendered count never reads as a mine or an empty cell. */
  lemma StrIsNotMineOrEmpty(n: nat)
    ensures Str(n) != Mine && Str(n) != Empty
  {
    var s := Str(n);
    assert IsDigit(s[0]);
    assert Mine[0] == '*' && Empty[0] == '.';
  }

  // ---------------------------------------------------------------------------
  // Positions and neighbours

  predicate InBounds(p: Pos, rows: int, cols: int)
  {
    0 <= p.0 < rows && 0 <= p.1 < cols
  }

  predicate AllInBounds(ps: seq<Pos>, rows: int, cols: int)
  {
    forall k :: 0 <= k < |ps| ==> InBounds(ps[k], rows, cols)
  }

  /** Every in-bounds position of a rows x cols board. */
  function Cells(rows: nat, cols: nat): set<Pos>
  {
    set i, j | 0 <= i < rows && 0 <= j < cols :: (i, j)
  }

  lemma InCells(p: Pos, rows: nat, cols: nat)
    ensures p in Cells(rows, cols) <==> InBounds(p, rows, cols)
  {
    if InBounds(p, rows, cols) {
      var (i, j) := p;
      assert (i, j) in Cells(rows, cols);
    }
  }

  function Abs(x: int): nat { if x < 0 then -x else x }

  /** Manhattan distance 1: up, down, left or right. */
  predicate Orthogonal(p: Pos, q: Pos)
  {
    Abs(p.0 - q.0) + Abs(p.1 - q.1) == 1
  }

  /** Chebyshev distance 1: one of the eight surrounding cells. */
  predicate Touching(p: Pos, q: Pos)
  {
    Abs(p.0 - q.0) <= 1 && Abs(p.1 - q.1) <= 1 && p != q
  }

  /** The neighbour relation of a topology: 4-direction or 8-direction. */
  predicate Adjacent(p: Pos, q: Pos, diagonals: bool)
  {
    if diagonals then Touching(p, q) else Orthogonal(p, q)
  }

  lemma AdjacentSymmetric(p: Pos, q: Pos, diagonals: bool)
    ensures Adjacent(p, q, diagonals) <==> Adjacent(q, p, diagonals)
  {
  }

  const OrthogonalDirections: seq<Pos> := [(-1, 0), (1, 0), (0, -1), (0, 1)]
  const DiagonalDirections: seq<Pos> := [(-1, -1), (-1, 1), (1, -1), (1, 1)]

  /** The offsets of a topology, in the order main_v2.py lists them. */
  function Directions(diagonals: bool): seq<Pos>
  {
    if diagonals then OrthogonalDirections + DiagonalDirections else OrthogonalDirections
  }

  function Shift(p: Pos, d: Pos): Pos { (p.0 + d.0, p.1 + d.1) }

  /** The offset that takes `p` to `q`. */
  function Offset(p: Pos, q: Pos): Pos { (q.0 - p.0, q.1 - p.1) }

  /** A direction list names exactly the neighbours of the topology. */
  lemma DirectionsAreAdjacency(p: Pos, q: Pos, diagonals: bool)
    ensures Offset(p, q) in Directions(diagonals) <==> Adjacent(p, q, diagonals)
  {
  }

  /** In-bounds neighbours of `p`. */
  function Neighbours(p: Pos, rows: nat, cols: nat, diagonals: bool): set<Pos>
  {
    set q | q in Cells(rows, cols) && Adjacent(p, q, diagonals)
  }

  lemma InNeighbours(p: Pos, q: Pos, rows: nat, cols: nat, diagonals: bool)
    ensures q in Neighbours(p, rows, cols, diagonals) <==> InBounds(q, rows, cols) && Adjacent(p, q, diagonals)
  {
    InCells(q, rows, cols);
  }

  /** Exact number of mines among the in-bounds neighbours of `p`. */
  function MineCount(p: Pos, mines: set<Pos>, rows: nat, cols: nat, diagonals: bool): nat
  {
    |Neighbours(p, rows, cols, diagonals) * mines|
  }

  /** Only in-bounds mines matter to a count. */
  lemma MineCountInBounds(p: Pos, mines: set<Pos>, mines': set<Pos>, rows: nat, cols: nat, diagonals: bool)
    requires mines * Cells(rows, cols) == mines' * Cells(rows, cols)
    ensures MineCount(p, mines, rows, cols, diagonals) == MineCount(p, mines', rows, cols, diagonals)
  {
    forall q ensures q in Neighbours(p, rows, cols, diagonals) * mines <==> q in Neighbours(p, rows, cols, diagonals) * mines' {
      InNeighbours(p, q, rows, cols, diagonals);
      InCells(q, rows, cols);
      assert q in mines * Cells(rows, cols) <==> q in mines' * Cells(rows, cols);
    }
    assert Neighbours(p, rows, cols, diagonals) * mines == Neighbours(p, rows, cols, diagonals) * mines';
  }

  /** The label a numbered grid shows at `p`. */
  function Label(p: Pos, mines: set<Pos>, rows: nat, cols: nat, diagonals: bool): (s: string)
    ensures s == Mine <==> p in mines
  {
    StrIsNotMineOrEmpty(MineCount(p, mines, rows, cols, diagonals));
    if p in mines then Mine
    else
      var k := MineCount(p, mines, rows, cols, diagonals);
      if k > 0 then Str(k) else Empty
  }

  // ---------------------------------------------------------------------------
  // Sequences as sets, and counting

  predicate Distinct(s: seq<Pos>)
  {
    forall a, b :: 0 <= a < b < |s| ==> s[a] != s[b]
  }

  function Elements(s: seq<Pos>): set<Pos>
  {
    set x | x in s
  }

  /** Number of entries of `s` (with repetition) that lie in `S`. */
  function CountIn(s: seq<Pos>, S: set<Pos>): nat
  {
    if s == [] then 0 else CountIn(s[..|s| - 1], S) + (if s[|s| - 1] in S then 1 else 0)
  }

  /** Splitting off the last entry of a list. */
  lemma ElementsSnoc(s: seq<Pos>)
    requires s != []
    ensures Elements(s) == Elements(s[..|s| - 1]) + {s[|s| - 1]}
    ensures Distinct(s) ==> Distinct(s[..|s| - 1]) && s[|s| - 1] !in Elements(s[..|s| - 1])
  {
    assert s == s[..|s| - 1] + [s[|s| - 1]];
  }

  lemma MeetAddOne(A: set<Pos>, x: Pos, S: set<Pos>)
    requires x !in A
    ensures |(A + {x}) * S| == |A * S| + if x in S then 1 else 0
  {
    if x in S {
      assert (A + {x}) * S == A * S + {x};
    } else {
      assert (A + {x}) * S == A * S;
    }
  }

  lemma {:induction false} CountInDistinct(s: seq<Pos>, S: set<Pos>)
    requires Distinct(s)
    ensures CountIn(s, S) == |Elements(s) * S|
  {
    if s != [] {
      ElementsSnoc(s);
      CountInDistinct(s[..|s| - 1], S);
      MeetAddOne(Elements(s[..|s| - 1]), s[|s| - 1], S);
    }
  }

  lemma {:induction false} ElementsOfDistinct(s: seq<Pos>)
    requires Distinct(s)
    ensures |Elements(s)| == |s|
  {
    if s != [] {
      ElementsSnoc(s);
      ElementsOfDistinct(s[..|s| - 1]);
    }
  }

  lemma {:induction false} ElementsBound(s: seq<Pos>)
    ensures |Elements(s)| <= |s|
  {
    if s != [] {
      ElementsSnoc(s);
      ElementsBound(s[..|s| - 1]);
    }
  }

  lemma SubsetCard(A: set<Pos>, B: set<Pos>)
    requires A <= B
    ensures |A| <= |B|
  {
    assert B == A + (B - A);
  }

  // ---------------------------------------------------------------------------
  // Scanning the directions around one cell

  /** The positions `p + d` for the offsets `dirs`, in order (bounds not clipped). */
  function Shifts(p: Pos, dirs: seq<Pos>): seq<Pos>
  {
    seq(|dirs|, k requires 0 <= k < |dirs| => Shift(p, dirs[k]))
  }

  lemma ShiftsDistinct(p: Pos, dirs: seq<Pos>)
    requires Distinct(dirs)
    ensures Distinct(Shifts(p, dirs))
  {
    var r := Shifts(p, dirs);
    forall a, b | 0 <= a < b < |r| ensures r[a] != r[b] {
      assert dirs[a] != dirs[b];
    }
  }

  lemma InShifts(p: Pos, q: Pos, dirs: seq<Pos>)
    ensures q in Shifts(p, dirs) <==> Offset(p, q) in dirs
  {
    var r := Shifts(p, dirs);
    if q in r {
      var k :| 0 <= k < |r| && r[k] == q;
      assert dirs[k] == Offset(p, q);
    }
    if Offset(p, q) in dirs {
      var k :| 0 <= k < |dirs| && dirs[k] == Offset(p, q);
      assert r[k] == q;
    }
  }

  /** A cell has at most 4 (orthogonal) or 8 (full) in-bounds neighbours. */
  lemma NeighboursBound(p: Pos, rows: nat, cols: nat, diagonals: bool)
    ensures |Neighbours(p, rows, cols, diagonals)| <= |Directions(diagonals)|
    ensures |Directions(diagonals)| == if diagonals then 8 else 4
  {
    var dirs := Directions(diagonals);
    var around := Elements(Shifts(p, dirs));
    forall q | q in Neighbours(p, rows, cols, diagonals) ensures q in around {
      InNeighbours(p, q, rows, cols, diagonals);
      DirectionsAreAdjacency(p, q, diagonals);
      InShifts(p, q, dirs);
    }
    SubsetCard(Neighbours(p, rows, cols, diagonals), around);
    ElementsBound(Shifts(p, dirs));
  }

  /** A cell's exact count is at most 4 (orthogonal) or 8 (full). */
  lemma MineCountBound(p: Pos, mines: set<Pos>, rows: nat, cols: nat, diagonals: bool)
    ensures MineCount(p, mines, rows, cols, diagonals) <= if diagonals then 8 else 4
  {
    NeighboursBound(p, rows, cols, diagonals);
    SubsetCard(Neighbours(p, rows, cols, diagonals) * mines, Neighbours(p, rows, cols, diagonals));
  }

  /** Counting the in-bounds mines met while walking a duplicate-free list of the
      topology's offsets gives the exact neighbour count. */
  lemma ScanCountIsMineCount(p: Pos, dirs: seq<Pos>, mines: set<Pos>, rows: nat, cols: nat, diagonals: bool)
    requires Distinct(dirs) && forall d :: d in dirs <==> d in Directions(diagonals)
    ensures CountIn(Shifts(p, dirs), mines * Cells(rows, cols)) == MineCount(p, mines, rows, cols, diagonals)
  {
    var found := mines * Cells(rows, cols);
    ShiftsDistinct(p, dirs);
    CountInDistinct(Shifts(p, dirs), found);
    forall q ensures q in Elements(Shifts(p, dirs)) * found <==> q in Neighbours(p, rows, cols, diagonals) * mines {
      InShifts(p, q, dirs);
      DirectionsAreAdjacency(p, q, diagonals);
      InNeighbours(p, q, rows, cols, diagonals);
      InCells(q, rows, cols);
    }
    assert Elements(Shifts(p, dirs)) * found == Neighbours(p, rows, cols, diagonals) * mines;
  }

  /** Extending a prefix of a walk by one offset. */
  lemma ShiftsSnoc(p: Pos, dirs: seq<Pos>, k: nat)
    requires k < |dirs|
    ensures Shifts(p, dirs[..k + 1]) == Shifts(p, dirs[..k]) + [Shift(p, dirs[k])]
  {
  }

  /** Every label of a numbered grid is `*`, `.` or a digit from 1 to 4 (orthogonal)
      or from 1 to 8 (full). */
  lemma LabelAlphabet(p: Pos, mines: set<Pos>, rows: nat, cols: nat, diagonals: bool)
    ensures var s := Label(p, mines, rows, cols, diagonals);
            s == Mine || s == Empty ||
            (|s| == 1 && '1' <= s[0] <= (if diagonals then '8' else '4'))
  {
    var k := MineCount(p, mines, rows, cols, diagonals);
    MineCountBound(p, mines, rows, cols, diagonals);
  }

  // ---------------------------------------------------------------------------
  // Random placements: the draw limits and the sets of cells labelled "1"

  /** The largest number of mines a random multi-mine board may hold: the
      smaller of one less than the board size and half the board size, rounded down. */
  function MaxMines(total: int): (r: int)
    ensures total >= 1 ==> r == total / 2 && r < total
  {
    if total - 1 < total / 2 then total - 1 else total / 2
  }

  /** The draws of the single-mine mode are possible outcomes of `randint`, `sample`
      and `choice` over the in-bounds orthogonal neighbours of the mine. */
  predicate OnesDrawn(ones: int, multipleOnes: bool, mine: Pos, sampledOnes: seq<Pos>, chosenOne: Pos, rows: nat, cols: nat)
  {
    var adjacent := Neighbours(mine, rows, cols, false);
    (ones > 0 || multipleOnes) && adjacent != {} ==>
      if multipleOnes then 1 <= |sampledOnes| && Distinct(sampledOnes) && Elements(sampledOnes) <= adjacent
      else chosenOne in adjacent
  }

  /** The cells that the single-mine mode labels "1". */
  function SingleMineOnes(ones: int, multipleOnes: bool, mine: Pos, sampledOnes: seq<Pos>, chosenOne: Pos, rows: nat, cols: nat): set<Pos>
  {
    if !(ones > 0 || multipleOnes) || Neighbours(mine, rows, cols, false) == {} then {}
    else if multipleOnes then Elements(sampledOnes)
    else {chosenOne}
  }

  /** Every "1" of the single-mine mode is an in-bounds orthogonal neighbour of the
      mine (so never the mine itself); `multiple_ones` places between 1 and the
      number of such neighbours (at most 4), otherwise exactly one is placed as
      soon as `ones > 0` and the mine has a neighbour, and none when neither flag
      asks for ones. */
  lemma SingleMineOnesPlacement(ones: int, multipleOnes: bool, mine: Pos, sampledOnes: seq<Pos>, chosenOne: Pos, rows: nat, cols: nat)
    requires OnesDrawn(ones, multipleOnes, mine, sampledOnes, chosenOne, rows, cols)
    ensures var placed := SingleMineOnes(ones, multipleOnes, mine, sampledOnes, chosenOne, rows, cols);
            var adjacent := Neighbours(mine, rows, cols, false);
            (forall o :: o in placed ==> InBounds(o, rows, cols) && Orthogonal(mine, o) && o != mine) &&
            |adjacent| <= 4 &&
            (multipleOnes && adjacent != {} ==> 1 <= |placed| <= |adjacent|) &&
            (!multipleOnes && ones > 0 && adjacent != {} ==> |placed| == 1) &&
            (!multipleOnes && ones <= 0 ==> placed == {}) &&
            (adjacent == {} ==> placed == {})
  {
    var placed := SingleMineOnes(ones, multipleOnes, mine, sampledOnes, chosenOne, rows, cols);
    var adjacent := Neighbours(mine, rows, cols, false);
    forall o | o in placed ensures InBounds(o, rows, cols) && Orthogonal(mine, o) && o != mine {
      InNeighbours(mine, o, rows, cols, false);
    }
    NeighboursBound(mine, rows, cols, false);
    if multipleOnes && adjacent != {} {
      ElementsOfDistinct(sampledOnes);
      SubsetCard(placed, adjacent);
    }
  }

  predicate NextToMine(q: Pos, mines: set<Pos>)
  {
    exists m :: m in mines && Orthogonal(m, q)
  }

  /** Cells that may receive a "1" once the mines are placed: still empty, and
      orthogonally next to some mine. */
  function Frontier(mines: set<Pos>, rows: nat, cols: nat): set<Pos>
  {
    set q | q in Cells(rows, cols) && q !in mines && NextToMine(q, mines)
  }

  lemma InFrontier(q: Pos, mines: set<Pos>, rows: nat, cols: nat)
    ensures q in Frontier(mines, rows, cols) <==> InBounds(q, rows, cols) && q !in mines && NextToMine(q, mines)
  {
    InCells(q, rows, cols);
  }

  lemma NextToMineAdd(q: Pos, mines: set<Pos>, m: Pos)
    ensures NextToMine(q, mines + {m}) <==> NextToMine(q, mines) || Orthogonal(m, q)
  {
  }

  /** Walking a list of mines one entry further. */
  lemma NextToMinePrefix(mines: seq<Pos>, k: nat)
    requires k < |mines|
    ensures forall q :: NextToMine(q, Elements(mines[..k + 1])) <==> NextToMine(q, Elements(mines[..k])) || Orthogonal(mines[k], q)
  {
    assert mines[..k + 1] == mines[..k] + [mines[k]];
    assert Elements(mines[..k + 1]) == Elements(mines[..k]) + {mines[k]};
    forall q ensures NextToMine(q, Elements(mines[..k + 1])) <==> NextToMine(q, Elements(mines[..k])) || Orthogonal(mines[k], q) {
      NextToMineAdd(q, Elements(mines[..k]), mines[k]);
    }
  }

  /** The draws of a multi-mine placement: `randint(low, max)` distinct
      positions sampled from the board. */
  predicate MinesDrawn(sampledMines: seq<Pos>, low: int, max: int, rows: nat, cols: nat)
  {
    low <= |sampledMines| <= max && Distinct(sampledMines) && AllInBounds(sampledMines, rows, cols)
  }

  /** The draws of the "1" cells: `randint(1, len(candidates))` distinct candidates,
      or nothing when there is no candidate. */
  predicate FrontierOnesDrawn(sampledOnes: seq<Pos>, mines: set<Pos>, rows: nat, cols: nat)
  {
    Distinct(sampledOnes) && Elements(sampledOnes) <= Frontier(mines, rows, cols) &&
    (Frontier(mines, rows, cols) != {} ==> 1 <= |sampledOnes|)
  }

  // ---------------------------------------------------------------------------
  // Grids

  /** The positions of a grid that hold `tag`. */
  function CellsLabelled(grid: array2<string>, tag: string): set<Pos>
    reads grid
  {
    set i, j | 0 <= i < grid.Length0 && 0 <= j < grid.Length1 && grid[i, j] == tag :: (i, j)
  }

  lemma InCellsLabelled(grid: array2<string>, tag: string, p: Pos)
    ensures p in CellsLabelled(grid, tag) <==> InBounds(p, grid.Length0, grid.Length1) && grid[p.0, p.1] == tag
  {
    if InBounds(p, grid.Length0, grid.Length1) && grid[p.0, p.1] == tag {
      var (i, j) := p;
      assert (i, j) in CellsLabelled(grid, tag);
    }
  }

  /** A fresh rows x cols grid whose every cell is ".". */
  method NewGrid(rows: nat, cols: nat) returns (grid: array2<string>)
    ensures fresh(grid) && grid.Length0 == rows && grid.Length1 == cols
    ensures forall i, j :: 0 <= i < rows && 0 <= j < cols ==> grid[i, j] == Empty
  {
    grid := new string[rows, cols]((i, j) => Empty);
  }

  /** In a numbered grid the "*" cells are exactly the mines. */
  lemma NumberedGridMines(grid: array2<string>, mines: set<Pos>, diagonals: bool)
    requires forall m :: m in mines ==> InBounds(m, grid.Length0, grid.Length1)
    requires forall i, j :: 0 <= i < grid.Length0 && 0 <= j < grid.Length1 ==>
               grid[i, j] == Label((i, j), mines, grid.Length0, grid.Length1, diagonals)
    ensures CellsLabelled(grid, Mine) == mines
  {
    forall p ensures p in CellsLabelled(grid, Mine) <==> p in mines {
      InCellsLabelled(grid, Mine, p);
    }
  }

  /** Writes `tag` into the cell of every listed position, in list order. */
  method Mark(grid: array2<string>, positions: seq<Pos>, tag: string)
    requires AllInBounds(positions, grid.Length0, grid.Length1)
    modifies grid
    ensures forall i, j :: 0 <= i < grid.Length0 && 0 <= j < grid.Length1 ==>
              grid[i, j] == if (i, j) in positions then tag else old(grid[i, j])
  {
    for k := 0 to |positions|
      invariant forall i, j :: 0 <= i < grid.Length0 && 0 <= j < grid.Length1 ==>
                  grid[i, j] == if (i, j) in positions[..k] then tag else old(grid[i, j])
    {
      grid[positions[k].0, positions[k].1] := tag;
      assert positions[..k + 1] == positions[..k] + [positions[k]];
    }
    assert positions[..|positions|] == positions;
  }
}
