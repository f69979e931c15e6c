/**
  The minefield as a value: rows of cells, indexed g[y][x] with x the column and
  y the row. The board's methods are specified by the functions and relations
  here, and the lemmas here carry the facts the board relies on.
 */
module Grids {
  import opened Cells

  type Grid = seq<seq<Cell>>

  /** height rows of width cells each. */
  predicate Shaped(g: Grid, width: nat, height: nat) {
    |g| == height && forall y | 0 <= y < |g| :: |g[y]| == width
  }

  predicate InBoard(g: Grid, x: int, y: int) {
    0 <= y < |g| && 0 <= x < |g[y]|
  }

  /** (c, r) is one of the up to eight cells around (x, y). */
  predicate Adjacent(x: int, y: int, c: int, r: int) {
    (c, r) != (x, y) && x - 1 <= c <= x + 1 && y - 1 <= r <= y + 1
  }

  /** fill: height rows of width clear cells. */
  function Filled(width: nat, height: nat): (g: Grid)
    ensures Shaped(g, width, height)
  {
    seq(height, _ => seq(width, _ => NewCell(false)))
  }

  // ---------------------------------------------------------------------------
  // Counting mines

  /** 1 when (c, r) is on the board and holds a mine, else 0. */
  function MineAt(g: Grid, c: int, r: int): nat {
    if InBoard(g, c, r) && g[r][c].hasMine then 1 else 0
  }

  /** The number of mines among the neighbours of (x, y). */
  function MinesAround(g: Grid, x: int, y: int): nat {
    MineAt(g, x - 1, y - 1) + MineAt(g, x, y - 1) + MineAt(g, x + 1, y - 1)
    + MineAt(g, x - 1, y) + MineAt(g, x + 1, y)
    + MineAt(g, x - 1, y + 1) + MineAt(g, x, y + 1) + MineAt(g, x + 1, y + 1)
  }

  /**
    The board invariant: a clear cell counts the mines around it, and a mine
    cell's own count is 0.
   */
  ghost predicate CountsConsistent(g: Grid) {
    forall y, x {:trigger MinesAround(g, x, y)} | InBoard(g, x, y) ::
      g[y][x].adjacentMines == if g[y][x].hasMine then 0 else MinesAround(g, x, y)
  }

  /** Every cell of the grid keeps "uncovered implies not flagged". */
  ghost predicate CellsConsistent(g: Grid) {
    forall y, x | InBoard(g, x, y) :: Consistent(g[y][x])
  }

  function RowMines(row: seq<Cell>): nat {
    if row == [] then 0
    else RowMines(row[..|row| - 1]) + (if row[|row| - 1].hasMine then 1 else 0)
  }

  /** The number of mine cells on the board. */
  function MineTotal(g: Grid): nat {
    if g == [] then 0 else MineTotal(g[..|g| - 1]) + RowMines(g[|g| - 1])
  }

  /** Same shape, and the same cells hold mines. */
  ghost predicate SameMines(g0: Grid, g1: Grid) {
    |g1| == |g0|
    && (forall y | 0 <= y < |g0| :: |g1[y]| == |g0[y]|)
    && forall y, x | InBoard(g0, x, y) :: g1[y][x].hasMine == g0[y][x].hasMine
  }

  /** Same shape, same mines, and the same counts. */
  ghost predicate SameMinesAndCounts(g0: Grid, g1: Grid) {
    SameMines(g0, g1)
    && forall y, x | InBoard(g0, x, y) :: g1[y][x].adjacentMines == g0[y][x].adjacentMines
  }

  lemma {:induction false} RowMinesSame(r0: seq<Cell>, r1: seq<Cell>)
    requires |r0| == |r1| && forall i | 0 <= i < |r0| :: r1[i].hasMine == r0[i].hasMine
    ensures RowMines(r1) == RowMines(r0)
  {
    if r0 != [] {
      RowMinesSame(r0[..|r0| - 1], r1[..|r1| - 1]);
    }
  }

  /** The mine total only depends on where the mines are. */
  lemma {:induction false} MineTotalSame(g0: Grid, g1: Grid)
    requires SameMines(g0, g1)
    ensures MineTotal(g1) == MineTotal(g0)
  {
    if g0 != [] {
      var n := |g0| - 1;
      RowMinesSame(g0[n], g1[n]);
      MineTotalSame(g0[..n], g1[..n]);
    }
  }

  lemma {:induction false} RowMinesOneMore(r0: seq<Cell>, r1: seq<Cell>, x: int)
    requires |r0| == |r1| && 0 <= x < |r0|
    requires !r0[x].hasMine && r1[x].hasMine
    requires forall i | 0 <= i < |r0| && i != x :: r1[i].hasMine == r0[i].hasMine
    ensures RowMines(r1) == RowMines(r0) + 1
  {
    var n := |r0| - 1;
    if x == n {
      RowMinesSame(r0[..n], r1[..n]);
    } else {
      RowMinesOneMore(r0[..n], r1[..n], x);
    }
  }

  /** Turning one clear cell into a mine raises the total by exactly one. */
  lemma {:induction false} MineTotalOneMore(g0: Grid, g1: Grid, x: int, y: int)
    requires |g1| == |g0| && forall r | 0 <= r < |g0| :: |g1[r]| == |g0[r]|
    requires InBoard(g0, x, y) && !g0[y][x].hasMine && g1[y][x].hasMine
    requires forall r, c | InBoard(g0, c, r) && (c, r) != (x, y) :: g1[r][c].hasMine == g0[r][c].hasMine
    ensures MineTotal(g1) == MineTotal(g0) + 1
  {
    var n := |g0| - 1;
    if y == n {
      MineTotalSame(g0[..n], g1[..n]);
      RowMinesOneMore(g0[n], g1[n], x);
    } else {
      MineTotalOneMore(g0[..n], g1[..n], x, y);
      RowMinesSame(g0[n], g1[n]);
    }
  }

  lemma {:induction false} RowMinesWithMine(row: seq<Cell>, x: int)
    requires 0 <= x < |row| && row[x].hasMine
    ensures RowMines(row) >= 1
  {
    if x < |row| - 1 {
      RowMinesWithMine(row[..|row| - 1], x);
    }
  }

  /** A board with a mine somewhere has a positive mine total. */
  lemma {:induction false} MineTotalWithMine(g: Grid, x: int, y: int)
    requires InBoard(g, x, y) && g[y][x].hasMine
    ensures MineTotal(g) >= 1
  {
    if y < |g| - 1 {
      MineTotalWithMine(g[..|g| - 1], x, y);
    } else {
      RowMinesWithMine(g[y], x);
    }
  }

  lemma {:induction false} RowMinesBound(row: seq<Cell>)
    ensures RowMines(row) <= |row|
    ensures RowMines(row) == |row| ==> forall i | 0 <= i < |row| :: row[i].hasMine
  {
    if row != [] {
      RowMinesBound(row[..|row| - 1]);
    }
  }

  /**
    A board holds at most width * height mines, and holding that many means
    every cell is a mine.
   */
  lemma {:induction false} MineTotalBound(g: Grid, width: nat, height: nat)
    requires Shaped(g, width, height)
    ensures MineTotal(g) <= width * height
    ensures MineTotal(g) == width * height ==> forall y, x | InBoard(g, x, y) :: g[y][x].hasMine
  {
    if g != [] {
      var n := |g| - 1;
      MineTotalBound(g[..n], width, n);
      RowMinesBound(g[n]);
      assert width * height == width * n + width;
    }
  }

  /** A full board has no counts: every cell is a mine and every count is 0. */
  lemma FullBoardHasNoCounts(g: Grid, width: nat, height: nat)
    requires Shaped(g, width, height) && CountsConsistent(g)
    requires MineTotal(g) == width * height
    ensures forall y, x | InBoard(g, x, y) :: g[y][x].hasMine && g[y][x].adjacentMines == 0
  {
    MineTotalBound(g, width, height);
    forall y, x | InBoard(g, x, y) ensures g[y][x].adjacentMines == 0 {
      assert MinesAround(g, x, y) >= 0;
    }
  }

  /** The grid fill builds has no mines and satisfies the board invariant. */
  lemma FilledIsClear(width: nat, height: nat)
    ensures MineTotal(Filled(width, height)) == 0
    ensures CountsConsistent(Filled(width, height)) && CellsConsistent(Filled(width, height))
  {
    var g := Filled(width, height);
    forall y, x | InBoard(g, x, y) ensures MineAt(g, x, y) == 0 { }
    MineTotalZero(g);
  }

  lemma {:induction false} MineTotalZero(g: Grid)
    requires forall y, x | InBoard(g, x, y) :: !g[y][x].hasMine
    ensures MineTotal(g) == 0
  {
    if g != [] {
      MineTotalZero(g[..|g| - 1]);
      RowMinesZero(g[|g| - 1]);
    }
  }

  lemma {:induction false} RowMinesZero(row: seq<Cell>)
    requires forall i | 0 <= i < |row| :: !row[i].hasMine
    ensures RowMines(row) == 0
  {
    if row != [] {
      RowMinesZero(row[..|row| - 1]);
    }
  }

  /** Counts are a function of where the mines are. */
  lemma MinesAroundSame(g0: Grid, g1: Grid, x: int, y: int)
    requires SameMines(g0, g1)
    ensures MinesAround(g1, x, y) == MinesAround(g0, x, y)
  {
  }

  /** Changing neither mines nor counts keeps the board invariant. */
  lemma CountsConsistentSame(g0: Grid, g1: Grid)
    requires SameMinesAndCounts(g0, g1) && CountsConsistent(g0)
    ensures CountsConsistent(g1)
  {
    forall y, x | InBoard(g1, x, y)
      ensures g1[y][x].adjacentMines == if g1[y][x].hasMine then 0 else MinesAround(g1, x, y)
    {
      MinesAroundSame(g0, g1, x, y);
    }
  }

  // ---------------------------------------------------------------------------
  // Planting a mine

  /** What plant_mine(x, y) leaves at (c, r). */
  function PlantedCell(g: Grid, x: int, y: int, c: int, r: int): Cell
    requires InBoard(g, c, r)
  {
    if (c, r) == (x, y) then NewCell(true)
    else if Adjacent(x, y, c, r) && !g[r][c].hasMine then g[r][c].(adjacentMines := g[r][c].adjacentMines + 1)
    else g[r][c]
  }

  /** The grid after plant_mine(x, y). */
  function Planted(g: Grid, x: int, y: int): (g': Grid)
    requires InBoard(g, x, y)
    ensures |g'| == |g| && (forall r | 0 <= r < |g| :: |g'[r]| == |g[r]|)
    ensures g'[y][x] == NewCell(true)
  {
    seq(|g|, r requires 0 <= r < |g| => seq(|g[r]|, c requires 0 <= c < |g[r]| => PlantedCell(g, x, y, c, r)))
  }

  /**
    The grid part-way through plant_mine's loops, which visit the window row by
    row: the neighbours of (x, y) from (col, row) on are still as in g0, every
    other cell is as in Planted(g0, x, y).
   */
  ghost predicate PlantedBefore(g0: Grid, g: Grid, x: int, y: int, col: int, row: int) {
    |g| == |g0|
    && (forall r | 0 <= r < |g0| :: |g[r]| == |g0[r]|)
    && forall r, c | InBoard(g0, c, r) ::
         g[r][c] == if Adjacent(x, y, c, r) && (r > row || (r == row && c >= col)) then g0[r][c]
                    else PlantedCell(g0, x, y, c, r)
  }

  /** The grid after the visit of (col, row): a clear neighbour gains one in its count. */
  function PlantVisit(g: Grid, x: int, y: int, col: int, row: int): Grid
    requires InBoard(g, col, row)
  {
    if (col, row) != (x, y) && !g[row][col].hasMine then
      g[row := g[row][col := g[row][col].(adjacentMines := g[row][col].adjacentMines + 1)]]
    else g
  }

  /** Placing the mine itself starts the loops. */
  lemma PlantStart(g0: Grid, x: int, y: int, col: int, row: int)
    requires InBoard(g0, x, y) && (col <= x - 1 || col <= 0) && (row <= y - 1 || row <= 0)
    ensures PlantedBefore(g0, g0[y := g0[y][x := NewCell(true)]], x, y, col, row)
  {
  }

  /** Visiting one cell of the window advances the loops by one cell. */
  lemma PlantVisitStep(g0: Grid, g: Grid, x: int, y: int, col: int, row: int)
    requires InBoard(g0, x, y) && InBoard(g0, col, row)
    requires x - 1 <= col <= x + 1 && y - 1 <= row <= y + 1
    requires PlantedBefore(g0, g, x, y, col, row)
    ensures PlantedBefore(g0, PlantVisit(g, x, y, col, row), x, y, col + 1, row)
  {
  }

  /** A row of the window is finished once its columns up to the window's right edge are visited. */
  lemma PlantNextRow(g0: Grid, x: int, y: int, g: Grid, col: int, row: int, nextCol: int)
    requires InBoard(g0, x, y) && (forall r | 0 <= r < |g0| :: |g0[r]| == |g0[y]|)
    requires col > x + 1 || col >= |g0[y]|
    requires nextCol <= x - 1 || nextCol <= 0
    requires PlantedBefore(g0, g, x, y, col, row)
    ensures PlantedBefore(g0, g, x, y, nextCol, row + 1)
  {
  }

  /** Once the rows of the window are done, the grid is Planted(g0, x, y). */
  lemma PlantDone(g0: Grid, g: Grid, x: int, y: int, col: int, row: int)
    requires InBoard(g0, x, y) && (row > y + 1 || row >= |g0|)
    requires PlantedBefore(g0, g, x, y, col, row)
    ensures g == Planted(g0, x, y)
  {
    forall r | 0 <= r < |g| ensures g[r] == Planted(g0, x, y)[r] { }
  }

  /**
    Planting puts a fresh mine cell at (x, y), whatever count, flag or cover the
    cell had; raises by one the count of each clear neighbour; and leaves mine
    neighbours and every cell outside the 3x3 window as they were.
   */
  lemma PlantedEffect(g: Grid, x: int, y: int)
    requires InBoard(g, x, y)
    ensures var g' := Planted(g, x, y);
      |g'| == |g| && (forall r | 0 <= r < |g| :: |g'[r]| == |g[r]|)
      && g'[y][x] == NewCell(true)
      && (forall r, c | InBoard(g, c, r) && Adjacent(x, y, c, r) && !g[r][c].hasMine ::
            g'[r][c] == g[r][c].(adjacentMines := g[r][c].adjacentMines + 1))
      && (forall r, c | InBoard(g, c, r) && (c, r) != (x, y) && (!Adjacent(x, y, c, r) || g[r][c].hasMine) ::
            g'[r][c] == g[r][c])
  {
  }

  lemma MineAtAfterPlant(g: Grid, x: int, y: int, c: int, r: int)
    requires InBoard(g, x, y) && !g[y][x].hasMine
    ensures MineAt(Planted(g, x, y), c, r) == MineAt(g, c, r) + (if (c, r) == (x, y) then 1 else 0)
  {
  }

  /** The mine at (x, y) adds one to the mine count around exactly its neighbours. */
  lemma MinesAroundAfterPlant(g: Grid, x: int, y: int, c: int, r: int)
    requires InBoard(g, x, y) && !g[y][x].hasMine
    ensures MinesAround(Planted(g, x, y), c, r) == MinesAround(g, c, r) + (if Adjacent(c, r, x, y) then 1 else 0)
  {
    MineAtAfterPlant(g, x, y, c - 1, r - 1);
    MineAtAfterPlant(g, x, y, c, r - 1);
    MineAtAfterPlant(g, x, y, c + 1, r - 1);
    MineAtAfterPlant(g, x, y, c - 1, r);
    MineAtAfterPlant(g, x, y, c + 1, r);
    MineAtAfterPlant(g, x, y, c - 1, r + 1);
    MineAtAfterPlant(g, x, y, c, r + 1);
    MineAtAfterPlant(g, x, y, c + 1, r + 1);
  }

  /**
    Planting on a clear cell keeps the board invariant and raises the mine
    total by one.
   */
  lemma PlantedKeepsInvariant(g: Grid, x: int, y: int)
    requires InBoard(g, x, y) && !g[y][x].hasMine && CountsConsistent(g)
    ensures CountsConsistent(Planted(g, x, y))
    ensures MineTotal(Planted(g, x, y)) == MineTotal(g) + 1
    ensures CellsConsistent(g) ==> CellsConsistent(Planted(g, x, y))
  {
    PlantedAddsOneMine(g, x, y);
    var g' := Planted(g, x, y);
    forall r, c | InBoard(g', c, r)
      ensures g'[r][c].adjacentMines == if g'[r][c].hasMine then 0 else MinesAround(g', c, r)
    {
      MinesAroundAfterPlant(g, x, y, c, r);
    }
  }

  /** Planting on a clear cell raises the mine total by exactly one. */
  lemma PlantedAddsOneMine(g: Grid, x: int, y: int)
    requires InBoard(g, x, y) && !g[y][x].hasMine
    ensures MineTotal(Planted(g, x, y)) == MineTotal(g) + 1
  {
    MineTotalOneMore(g, Planted(g, x, y), x, y);
  }

  // ---------------------------------------------------------------------------
  // Uncovering

  /** The grid after reveal() on the cell at (c, r). */
  function RevealAt(g: Grid, c: int, r: int): (g': Grid)
    requires InBoard(g, c, r)
  {
    g[r := g[r][c := Reveal(g[r][c])]]
  }

  /**
    g1 comes from g0 by uncovering cells: the same shape, and each cell either as
    it was or revealed.
   */
  ghost predicate RevealedFrom(g0: Grid, g1: Grid) {
    |g1| == |g0|
    && (forall y | 0 <= y < |g0| :: |g1[y]| == |g0[y]|)
    && forall y, x | InBoard(g0, x, y) :: g1[y][x] == g0[y][x] || g1[y][x] == Reveal(g0[y][x])
  }

  ghost predicate NewlyUncovered(g0: Grid, g1: Grid, c: int, r: int) {
    InBoard(g0, c, r) && InBoard(g1, c, r) && !g0[r][c].uncovered && g1[r][c].uncovered
  }

  ghost predicate NeighboursUncovered(g: Grid, x: int, y: int) {
    forall r, c | InBoard(g, c, r) && Adjacent(x, y, c, r) :: g[r][c].uncovered
  }

  /** Every zero-count cell uncovered on the way from g0 to g1 has all its neighbours uncovered. */
  ghost predicate ZeroCellsExpanded(g0: Grid, g1: Grid) {
    forall r, c | NewlyUncovered(g0, g1, c, r) && g1[r][c].adjacentMines == 0 :: NeighboursUncovered(g1, c, r)
  }

  /** The cell p was uncovered on the way from g0 to g1 and has count 0, so the fill went on from it. */
  ghost predicate ZeroUncovered(g0: Grid, g1: Grid, p: (int, int)) {
    NewlyUncovered(g0, g1, p.0, p.1) && g1[p.1][p.0].adjacentMines == 0
  }

  /**
    A path the fill can take: a step from one cell to a neighbour at a time,
    through inner cells that are zero-count cells uncovered on the way from g0
    to g1.
   */
  ghost predicate FillPath(g0: Grid, g1: Grid, path: seq<(int, int)>) {
    |path| >= 2
    && (forall i | 0 <= i < |path| - 1 :: Adjacent(path[i].0, path[i].1, path[i + 1].0, path[i + 1].1))
    && (forall i | 0 < i < |path| - 1 :: ZeroUncovered(g0, g1, path[i]))
  }

  /** The fill from (x, y) can reach (c, r). */
  ghost predicate Reaches(g0: Grid, g1: Grid, x: int, y: int, c: int, r: int) {
    exists path :: FillPath(g0, g1, path) && path[0] == (x, y) && path[|path| - 1] == (c, r)
  }

  /**
    The fill from (x, y) uncovers nothing it cannot reach: every cell uncovered
    on the way from g0 to g1 is reached from (x, y) through zero-count cells
    uncovered on the way.
   */
  ghost predicate FilledFrom(g0: Grid, g1: Grid, x: int, y: int) {
    forall r, c | NewlyUncovered(g0, g1, c, r) :: Reaches(g0, g1, x, y, c, r)
  }

  ghost predicate NoMineUncovered(g0: Grid, g1: Grid) {
    forall r, c | NewlyUncovered(g0, g1, c, r) :: !g1[r][c].hasMine
  }

  /** The coordinates (x, y) of the cells still covered. */
  ghost function CoveredCells(g: Grid): set<(int, int)> {
    set r, c | 0 <= r < |g| && 0 <= c < |g[r]| && !g[r][c].uncovered :: (c, r)
  }

  /**
    Part-way through expand's loops, which visit the window of (x, y) row by
    row: every neighbour before (col, row) is uncovered.
   */
  ghost predicate UncoveredBefore(g: Grid, x: int, y: int, col: int, row: int) {
    forall r, c | InBoard(g, c, r) && Adjacent(x, y, c, r) && (r < row || (r == row && c < col)) ::
      g[r][c].uncovered
  }

  /** Nothing is owed when the loops start at the window's top-left corner. */
  lemma UncoveredStart(g: Grid, x: int, y: int, col: int, row: int)
    requires (col <= x - 1 || col <= 0) && (row <= y - 1 || row <= 0)
    ensures UncoveredBefore(g, x, y, col, row)
  {
  }

  /** Visiting (col, row) leaves it uncovered, unless it is (x, y) itself or off the board. */
  lemma UncoveredStep(g: Grid, x: int, y: int, col: int, row: int)
    requires UncoveredBefore(g, x, y, col, row)
    requires (col, row) == (x, y) || !InBoard(g, col, row) || g[row][col].uncovered
    ensures UncoveredBefore(g, x, y, col + 1, row)
  {
  }

  /** Further uncovering keeps what the loops have done. */
  lemma UncoveredKept(g1: Grid, g2: Grid, x: int, y: int, col: int, row: int)
    requires RevealedFrom(g1, g2) && UncoveredBefore(g1, x, y, col, row)
    ensures UncoveredBefore(g2, x, y, col, row)
  {
    forall r, c | InBoard(g2, c, r) && Adjacent(x, y, c, r) && (r < row || (r == row && c < col))
      ensures g2[r][c].uncovered
    {
      assert InBoard(g1, c, r);
    }
  }

  /** A row is finished once its columns up to the window's right edge are visited. */
  lemma UncoveredNextRow(g: Grid, x: int, y: int, col: int, row: int, nextCol: int)
    requires 0 <= y < |g| && (forall r | 0 <= r < |g| :: |g[r]| == |g[y]|)
    requires col > x + 1 || col >= |g[y]|
    requires nextCol <= x - 1 || nextCol <= 0
    requires UncoveredBefore(g, x, y, col, row)
    ensures UncoveredBefore(g, x, y, nextCol, row + 1)
  {
  }

  /** Once the rows of the window are done, every neighbour is uncovered. */
  lemma UncoveredDone(g: Grid, x: int, y: int, col: int, row: int)
    requires row > y + 1 || row >= |g|
    requires UncoveredBefore(g, x, y, col, row)
    ensures NeighboursUncovered(g, x, y)
  {
  }

  lemma RevealedFromTransitive(g0: Grid, g1: Grid, g2: Grid)
    requires RevealedFrom(g0, g1) && RevealedFrom(g1, g2)
    ensures RevealedFrom(g0, g2)
  {
  }

  /** Uncovering changes no mine and no count, so it keeps the board invariant and the mine total. */
  lemma RevealedFromKeepsInvariant(g0: Grid, g1: Grid)
    requires RevealedFrom(g0, g1)
    ensures SameMinesAndCounts(g0, g1)
    ensures MineTotal(g1) == MineTotal(g0)
    ensures CountsConsistent(g0) ==> CountsConsistent(g1)
    ensures CellsConsistent(g0) ==> CellsConsistent(g1)
  {
    MineTotalSame(g0, g1);
    if CountsConsistent(g0) {
      CountsConsistentSame(g0, g1);
    }
  }

  /**
    On a grid where no uncovered cell is flagged, uncovering leaves every
    already uncovered cell exactly as it was.
   */
  lemma RevealedFromKeepsUncoveredCells(g0: Grid, g1: Grid)
    requires RevealedFrom(g0, g1) && CellsConsistent(g0)
    ensures forall y, x | InBoard(g0, x, y) && g0[y][x].uncovered :: g1[y][x] == g0[y][x]
  {
    forall y, x | InBoard(g0, x, y) && g0[y][x].uncovered ensures g1[y][x] == g0[y][x] {
      assert Consistent(g0[y][x]);
    }
  }

  /** Uncovering never covers a cell again. */
  lemma RevealedFromCovered(g0: Grid, g: Grid)
    requires RevealedFrom(g0, g)
    ensures CoveredCells(g) <= CoveredCells(g0)
  {
    forall p | p in CoveredCells(g) ensures p in CoveredCells(g0) {
      var (c, r) := p;
      assert !g[r][c].uncovered;
    }
  }

  /** Revealing a covered cell removes exactly that cell from the covered ones. */
  lemma RevealAtShrinksCovered(g0: Grid, g: Grid, c: int, r: int)
    requires RevealedFrom(g0, g) && InBoard(g, c, r) && !g[r][c].uncovered
    ensures RevealedFrom(g0, RevealAt(g, c, r))
    ensures CoveredCells(RevealAt(g, c, r)) < CoveredCells(g0)
  {
    var g' := RevealAt(g, c, r);
    assert (c, r) in CoveredCells(g0) - CoveredCells(g');
    forall p | p in CoveredCells(g') ensures p in CoveredCells(g0) {
      var (c', r') := p;
      assert !g'[r'][c'].uncovered;
    }
  }

  /** A zero-count cell the fill uncovered passes the fill on to each of its neighbours. */
  lemma ZeroCellSpreads(g0: Grid, g: Grid, c: int, r: int, c2: int, r2: int)
    requires RevealedFrom(g0, g) && ZeroCellsExpanded(g0, g)
    requires InBoard(g0, c, r) && !g0[r][c].uncovered && g0[r][c].adjacentMines == 0 && g[r][c].uncovered
    requires InBoard(g0, c2, r2) && Adjacent(c, r, c2, r2)
    ensures g[r2][c2].uncovered
  {
    assert NewlyUncovered(g0, g, c, r);
  }

  /** A clear cell with count 0 has no mine around it. */
  lemma ZeroCountMeansClearNeighbours(g: Grid, x: int, y: int)
    requires CountsConsistent(g) && InBoard(g, x, y) && !g[y][x].hasMine && g[y][x].adjacentMines == 0
    ensures forall r, c | InBoard(g, c, r) && Adjacent(x, y, c, r) :: !g[r][c].hasMine
  {
    assert MinesAround(g, x, y) == 0;
    forall r, c | InBoard(g, c, r) && Adjacent(x, y, c, r) ensures !g[r][c].hasMine {
      assert MineAt(g, c, r) == 0;
    }
  }

  /**
    One step of the flood fill around (x, y): the covered neighbour (col, row)
    is revealed, giving RevealAt(gp, col, row), and, when its count is 0, the
    fill continues from it, giving g2. What was established for the cells
    handled before carries over to g2.
   */
  lemma ExpandStep(g0: Grid, gp: Grid, g2: Grid, x: int, y: int, col: int, row: int)
    requires InBoard(gp, col, row) && Adjacent(x, y, col, row) && !gp[row][col].uncovered
    requires RevealedFrom(g0, gp) && ZeroCellsExpanded(g0, gp)
    requires RevealedFrom(RevealAt(gp, col, row), g2)
    requires gp[row][col].adjacentMines > 0 ==> g2 == RevealAt(gp, col, row)
    requires gp[row][col].adjacentMines == 0 ==>
      NeighboursUncovered(g2, col, row) && ZeroCellsExpanded(RevealAt(gp, col, row), g2)
    ensures RevealedFrom(g0, g2) && ZeroCellsExpanded(g0, g2)
    ensures InBoard(g2, col, row) && g2[row][col].uncovered
  {
    var gm := RevealAt(gp, col, row);
    assert InBoard(gm, col, row);
    RevealAtShrinksCovered(g0, gp, col, row);
    RevealedFromTransitive(g0, gm, g2);
    forall r, c | NewlyUncovered(g0, g2, c, r) && g2[r][c].adjacentMines == 0
      ensures NeighboursUncovered(g2, c, r)
    {
      if NewlyUncovered(gm, g2, c, r) {
      } else if (c, r) == (col, row) {
      } else {
        assert NewlyUncovered(g0, gp, c, r);
        assert NeighboursUncovered(gp, c, r);
      }
    }
  }

  /** A fill path stays one when more cells are uncovered afterwards. */
  lemma FillPathLift(g0: Grid, g1: Grid, g2: Grid, path: seq<(int, int)>)
    requires RevealedFrom(g1, g2) && FillPath(g0, g1, path)
    ensures FillPath(g0, g2, path)
  {
    forall i | 0 < i < |path| - 1 ensures ZeroUncovered(g0, g2, path[i]) {
      assert ZeroUncovered(g0, g1, path[i]);
    }
  }

  /** A fill path stays one when counted from an earlier grid. */
  lemma FillPathRebase(g0: Grid, g1: Grid, g2: Grid, path: seq<(int, int)>)
    requires RevealedFrom(g0, g1) && FillPath(g1, g2, path)
    ensures FillPath(g0, g2, path)
  {
    forall i | 0 < i < |path| - 1 ensures ZeroUncovered(g0, g2, path[i]) {
      assert ZeroUncovered(g1, g2, path[i]);
    }
  }

  /** A fill path can start one step earlier, from a neighbour of its first cell when that cell is a zero-count cell uncovered on the way. */
  lemma FillPathPrepend(g0: Grid, g1: Grid, x: int, y: int, path: seq<(int, int)>)
    requires FillPath(g0, g1, path) && Adjacent(x, y, path[0].0, path[0].1) && ZeroUncovered(g0, g1, path[0])
    ensures FillPath(g0, g1, [(x, y)] + path)
  {
    var longer := [(x, y)] + path;
    forall i | 0 < i < |longer| - 1 ensures ZeroUncovered(g0, g1, longer[i]) {
      assert longer[i] == path[i - 1];
    }
    forall i | 0 <= i < |longer| - 1 ensures Adjacent(longer[i].0, longer[i].1, longer[i + 1].0, longer[i + 1].1) {
      if i > 0 {
        assert longer[i] == path[i - 1] && longer[i + 1] == path[i];
      }
    }
  }

  /**
    The same step, for the upper bound: every cell uncovered so far is still
    reached from (x, y), the neighbour (col, row) is reached in one step, and
    the cells the fill from (col, row) uncovered are reached through (col, row).
   */
  lemma FillStep(g0: Grid, gp: Grid, g2: Grid, x: int, y: int, col: int, row: int)
    requires InBoard(gp, col, row) && Adjacent(x, y, col, row) && !gp[row][col].uncovered
    requires RevealedFrom(g0, gp) && FilledFrom(g0, gp, x, y)
    requires RevealedFrom(RevealAt(gp, col, row), g2) && g2[row][col].uncovered
    requires gp[row][col].adjacentMines > 0 ==> g2 == RevealAt(gp, col, row)
    requires gp[row][col].adjacentMines == 0 ==> FilledFrom(RevealAt(gp, col, row), g2, col, row)
    ensures FilledFrom(g0, g2, x, y)
  {
    var gm := RevealAt(gp, col, row);
    assert InBoard(gm, col, row);
    RevealAtShrinksCovered(g0, gp, col, row);
    RevealAtShrinksCovered(gp, gp, col, row);
    RevealedFromTransitive(gp, gm, g2);
    forall r, c | NewlyUncovered(g0, g2, c, r) ensures Reaches(g0, g2, x, y, c, r) {
      if NewlyUncovered(g0, gp, c, r) {
        var path :| FillPath(g0, gp, path) && path[0] == (x, y) && path[|path| - 1] == (c, r);
        FillPathLift(g0, gp, g2, path);
      } else if (c, r) == (col, row) {
        assert FillPath(g0, g2, [(x, y), (col, row)]);
      } else {
        assert NewlyUncovered(gm, g2, c, r);
        var q :| FillPath(gm, g2, q) && q[0] == (col, row) && q[|q| - 1] == (c, r);
        FillPathRebase(g0, gm, g2, q);
        assert ZeroUncovered(g0, g2, (col, row));
        FillPathPrepend(g0, g2, x, y, q);
        var path := [(x, y)] + q;
        assert FillPath(g0, g2, path) && path[|path| - 1] == (c, r);
      }
    }
  }

  /**
    The end of a fill path from (x, y) of g1 is uncovered in any g2 that meets
    the lower bound of the fill from (x, y).
   */
  lemma {:induction false} FillPathEndUncovered(g0: Grid, g1: Grid, g2: Grid, x: int, y: int, path: seq<(int, int)>)
    requires RevealedFrom(g0, g1) && RevealedFrom(g0, g2)
    requires NeighboursUncovered(g2, x, y) && ZeroCellsExpanded(g0, g2)
    requires FillPath(g0, g1, path) && path[0] == (x, y) && InBoard(g0, path[|path| - 1].0, path[|path| - 1].1)
    ensures g2[path[|path| - 1].1][path[|path| - 1].0].uncovered
    decreases |path|
  {
    var last := path[|path| - 1];
    assert InBoard(g2, last.0, last.1);
    if |path| > 2 {
      var prefix := path[..|path| - 1];
      var p := path[|path| - 2];
      assert ZeroUncovered(g0, g1, p);
      assert FillPath(g0, g1, prefix) by {
        forall i | 0 < i < |prefix| - 1 ensures ZeroUncovered(g0, g1, prefix[i]) {
          assert prefix[i] == path[i];
        }
        forall i | 0 <= i < |prefix| - 1
          ensures Adjacent(prefix[i].0, prefix[i].1, prefix[i + 1].0, prefix[i + 1].1)
        {
          assert prefix[i] == path[i] && prefix[i + 1] == path[i + 1];
        }
      }
      FillPathEndUncovered(g0, g1, g2, x, y, prefix);
      assert NewlyUncovered(g0, g2, p.0, p.1) && g2[p.1][p.0].adjacentMines == 0;
      assert NeighboursUncovered(g2, p.0, p.1);
      assert Adjacent(p.0, p.1, last.0, last.1);
    }
  }

  /**
    The fill's guarantees pin its result down: two grids that both meet the
    lower bound (NeighboursUncovered, ZeroCellsExpanded) and the upper bound
    (FilledFrom) of the fill from (x, y) of g0 have the same cells uncovered.
   */
  lemma FloodFillUnique(g0: Grid, g1: Grid, g2: Grid, x: int, y: int)
    requires RevealedFrom(g0, g1) && NeighboursUncovered(g1, x, y) && ZeroCellsExpanded(g0, g1) && FilledFrom(g0, g1, x, y)
    requires RevealedFrom(g0, g2) && NeighboursUncovered(g2, x, y) && ZeroCellsExpanded(g0, g2) && FilledFrom(g0, g2, x, y)
    ensures forall r, c | InBoard(g0, c, r) :: g1[r][c].uncovered == g2[r][c].uncovered
  {
    forall r, c | InBoard(g0, c, r) ensures g1[r][c].uncovered == g2[r][c].uncovered {
      if NewlyUncovered(g0, g1, c, r) {
        var path :| FillPath(g0, g1, path) && path[0] == (x, y) && path[|path| - 1] == (c, r);
        FillPathEndUncovered(g0, g1, g2, x, y, path);
      }
      if NewlyUncovered(g0, g2, c, r) {
        var path :| FillPath(g0, g2, path) && path[0] == (x, y) && path[|path| - 1] == (c, r);
        FillPathEndUncovered(g0, g2, g1, x, y, path);
      }
    }
  }

  /** Under the board invariant, a flood fill that starts from a clear zero-count cell uncovers no mine. */
  lemma NoMineStep(g0: Grid, gp: Grid, g2: Grid, x: int, y: int, col: int, row: int)
    requires CountsConsistent(g0) && InBoard(g0, x, y) && !g0[y][x].hasMine && g0[y][x].adjacentMines == 0
    requires InBoard(gp, col, row) && Adjacent(x, y, col, row) && !gp[row][col].uncovered
    requires RevealedFrom(g0, gp) && NoMineUncovered(g0, gp)
    requires RevealedFrom(RevealAt(gp, col, row), g2)
    requires gp[row][col].adjacentMines > 0 ==> g2 == RevealAt(gp, col, row)
    requires gp[row][col].adjacentMines == 0 && !gp[row][col].hasMine ==> NoMineUncovered(RevealAt(gp, col, row), g2)
    ensures NoMineUncovered(g0, g2)
  {
    ZeroCountMeansClearNeighbours(g0, x, y);
    assert InBoard(g0, col, row) && !gp[row][col].hasMine;
  }
}
