/**
  The Minesweeper board: a height x width grid of cells, stored row by row as
  cells[y][x], with the number of mines planted on it.
 */
module Board {
  import opened Results
  import opened Cells
  import opened Grids

  /** The inclusive rectangle [fromX..toX] x [fromY..toY] around a cell. */
  datatype Window = Window(fromX: int, fromY: int, toX: int, toY: int) {
    predicate Contains(c: int, r: int) {
      fromX <= c <= toX && fromY <= r <= toY
    }
  }

  function Max(a: int, b: int): int {
    if a < b then b else a
  }

  function Min(a: int, b: int): int {
    if a < b then a else b
  }

  // ---------------------------------------------------------------------------
  // Mine generation from a sequence of shots

  lemma MulMonotone(a: int, b: int, w: nat)
    requires a <= b
    ensures a * w <= b * w
  {
  }

  /** Euclidean division is unique: a quotient and a remainder in range are a / w and a % w. */
  lemma DivModUnique(a: int, w: int, q: int, r: int)
    requires w > 0 && 0 <= r < w && a == q * w + r
    ensures a / w == q && a % w == r
  {
    var q', r' := a / w, a % w;
    assert a == q' * w + r';
    if q' < q {
      MulMonotone(q' + 1, q, w);
    } else if q' > q {
      MulMonotone(q + 1, q', w);
    }
  }

  /** The cell a shot (a linear index in [0, width * height)) falls on: column shot % width, row shot / width. */
  function ShotCoords(width: nat, height: nat, shot: int): (p: (int, int))
    requires 0 <= shot < width * height
    ensures 0 <= p.0 < width && 0 <= p.1 < height
    ensures shot == p.1 * width + p.0
  {
    var x, y := shot % width, shot / width;
    assert y < height by {
      assert shot == y * width + x;
    }
    (x, y)
  }

  /** Every cell is hit by exactly one shot: the shot y * width + x. */
  lemma ShotCoordsOnto(width: nat, height: nat, x: int, y: int)
    requires 0 <= x < width && 0 <= y < height
    ensures 0 <= y * width + x < width * height
    ensures ShotCoords(width, height, y * width + x) == (x, y)
  {
    var shot := y * width + x;
    MulMonotone(y + 1, height, width);
    DivModUnique(shot, width, y, x);
  }

  /** The row mapping as board.py writes it: shot // height. */
  function SourceShotCoords(width: nat, height: nat, shot: int): (p: (int, int))
    requires width > 0 && height > 0 && 0 <= shot < width * height
    ensures p.0 == shot % width && p.1 * height <= shot < (p.1 + 1) * height
  {
    (shot % width, shot / height)
  }

  /** On a square board the written row mapping and the corrected one coincide. */
  lemma ShotCoordsAgreeOnSquareBoards(size: nat, shot: int)
    requires 0 <= shot < size * size
    ensures SourceShotCoords(size, size, shot) == ShotCoords(size, size, shot)
  {
  }

  /** On a 2-wide, 1-high board the shot 1 is mapped to row 1, outside the board. */
  lemma SourceShotLeavesWideBoard()
    ensures SourceShotCoords(2, 1, 1) == (1, 1)
    ensures !(SourceShotCoords(2, 1, 1).1 < 1)
  {
  }

  /** On a 1-wide, 2-high board no shot reaches row 1, so a second mine can never be placed. */
  lemma SourceShotMissesRowsOfTallBoard(shot: int)
    requires 0 <= shot < 1 * 2
    ensures SourceShotCoords(1, 2, shot) == (0, 0)
  {
  }

  /**
    The grid after the shots, in order, each planting a mine on the clear cell
    it falls on and skipping a cell that already holds one.
   */
  function PlantShots(g: Grid, width: nat, height: nat, shots: seq<int>): (g': Grid)
    requires Shaped(g, width, height)
    requires forall i | 0 <= i < |shots| :: 0 <= shots[i] < width * height
    ensures Shaped(g', width, height)
    decreases |shots|
  {
    if shots == [] then g
    else
      var g1 := PlantShots(g, width, height, shots[..|shots| - 1]);
      var p := ShotCoords(width, height, shots[|shots| - 1]);
      if g1[p.1][p.0].hasMine then g1 else Planted(g1, p.0, p.1)
  }

  /** One more shot: the grid after the first i + 1 shots, from the grid after the first i. */
  lemma PlantShotsStep(g: Grid, width: nat, height: nat, shots: seq<int>, i: nat)
    requires Shaped(g, width, height) && i < |shots|
    requires forall k | 0 <= k < |shots| :: 0 <= shots[k] < width * height
    ensures var g1 := PlantShots(g, width, height, shots[..i]);
      var p := ShotCoords(width, height, shots[i]);
      PlantShots(g, width, height, shots[..i + 1]) == if g1[p.1][p.0].hasMine then g1 else Planted(g1, p.0, p.1)
  {
    assert shots[..i + 1][..i] == shots[..i];
  }

  /** Later shots never take a mine away: the mine total only grows along the shots. */
  lemma {:induction false} PlantShotsGrows(g: Grid, width: nat, height: nat, shots: seq<int>, j: nat, k: nat)
    requires Shaped(g, width, height) && j <= k <= |shots|
    requires forall i | 0 <= i < |shots| :: 0 <= shots[i] < width * height
    ensures MineTotal(PlantShots(g, width, height, shots[..j])) <= MineTotal(PlantShots(g, width, height, shots[..k]))
    decreases k - j
  {
    if j < k {
      PlantShotsGrows(g, width, height, shots, j + 1, k);
      PlantShotsStep(g, width, height, shots, j);
      var g1: Grid := PlantShots(g, width, height, shots[..j]);
      var p: (int, int) := ShotCoords(width, height, shots[j]);
      if !g1[p.1][p.0].hasMine {
        PlantedAddsOneMine(g1, p.0, p.1);
      }
    }
  }

  /**
    Planting from the shots keeps the board invariant, and each shot adds at
    most one mine.
   */
  lemma {:induction false} PlantShotsKeepsInvariant(g: Grid, width: nat, height: nat, shots: seq<int>)
    requires Shaped(g, width, height) && CountsConsistent(g)
    requires forall i | 0 <= i < |shots| :: 0 <= shots[i] < width * height
    ensures CountsConsistent(PlantShots(g, width, height, shots))
    ensures CellsConsistent(g) ==> CellsConsistent(PlantShots(g, width, height, shots))
    ensures MineTotal(g) <= MineTotal(PlantShots(g, width, height, shots)) <= MineTotal(g) + |shots|
  {
    if shots != [] {
      var g1: Grid := PlantShots(g, width, height, shots[..|shots| - 1]);
      PlantShotsKeepsInvariant(g, width, height, shots[..|shots| - 1]);
      var p := ShotCoords(width, height, shots[|shots| - 1]);
      if !g1[p.1][p.0].hasMine {
        PlantedKeepsInvariant(g1, p.0, p.1);
      }
    }
  }

  /** Starting from fill's clear grid, every clear cell counts exactly the mines around it. */
  lemma GeneratedBoardIsConsistent(width: nat, height: nat, shots: seq<int>)
    requires forall i | 0 <= i < |shots| :: 0 <= shots[i] < width * height
    ensures CountsConsistent(PlantShots(Filled(width, height), width, height, shots))
    ensures CellsConsistent(PlantShots(Filled(width, height), width, height, shots))
  {
    FilledIsClear(width, height);
    PlantShotsKeepsInvariant(Filled(width, height), width, height, shots);
  }

  // ---------------------------------------------------------------------------

  class MineBoard {
    const width: nat
    const height: nat
    /** The mine count asked for at construction; only the construction uses it. */
    const expectedNumberOfMines: int
    /** The number of mines actually planted. */
    var numberOfMines: nat
    var cells: Grid

    /**
      The board invariant: the grid has the board's shape, numberOfMines counts
      its mines, every clear cell counts the mines around it while every
      mine's own count is 0, and no uncovered cell is flagged.
     */
    ghost predicate Valid()
      reads this
    {
      && Shaped(cells, width, height) && numberOfMines == MineTotal(cells)
      && CountsConsistent(cells) && CellsConsistent(cells)
    }

    /** A board of clear, covered cells (the construction with no mines to generate). */
    constructor (width: nat, height: nat, expectedNumberOfMines: int)
      ensures Valid()
      ensures this.width == width && this.height == height
      ensures this.expectedNumberOfMines == expectedNumberOfMines
      ensures cells == Filled(width, height) && numberOfMines == 0
    {
      this.width := width;
      this.height := height;
      this.expectedNumberOfMines := expectedNumberOfMines;
      numberOfMines := 0;
      cells := Filled(width, height);
      FilledIsClear(width, height);
    }

    /**
      The whole construction: a clear board, then, when more than zero mines
      are expected, mine generation from the given shots.
     */
    static method Create(width: nat, height: nat, expectedNumberOfMines: int, shots: seq<int>)
      returns (r: Result<MineBoard>, shotsUsed: nat)
      requires forall i | 0 <= i < |shots| :: 0 <= shots[i] < width * height
      ensures expectedNumberOfMines > width * height ==>
        r == Err(InvalidMineCount(expectedNumberOfMines, width * height))
      ensures expectedNumberOfMines <= width * height ==> r.Ok?
      ensures r.Ok? ==>
        && fresh(r.value) && r.value.Valid()
        && r.value.width == width && r.value.height == height
        && r.value.expectedNumberOfMines == expectedNumberOfMines
      ensures r.Ok? && expectedNumberOfMines <= 0 ==>
        r.value.cells == Filled(width, height) && r.value.numberOfMines == 0 && shotsUsed == 0
      ensures r.Ok? && expectedNumberOfMines > 0 ==>
        && shotsUsed <= |shots|
        && r.value.cells == PlantShots(Filled(width, height), width, height, shots[..shotsUsed])
        && (r.value.numberOfMines == expectedNumberOfMines
            || (shotsUsed == |shots| && r.value.numberOfMines < expectedNumberOfMines))
    {
      var board := new MineBoard(width, height, expectedNumberOfMines);
      shotsUsed := 0;
      if expectedNumberOfMines > 0 {
        var generated := board.GenerateMines(expectedNumberOfMines, shots);
        if generated.Err? {
          return Err(generated.error), 0;
        }
        shotsUsed := generated.value;
      }
      r := Ok(board);
    }

    /** is_valid_row: on a valid board, exactly the indices of the grid's rows. */
    predicate IsValidRow(y: int): (ok: bool)
      reads this
      ensures Valid() ==> (ok <==> 0 <= y < |cells|)
    {
      height > y >= 0
    }

    /** is_valid_col: on a valid board with a row, exactly the indices of a row's cells. */
    predicate IsValidCol(x: int): (ok: bool)
      reads this
      ensures Valid() && |cells| > 0 ==> (ok <==> 0 <= x < |cells[0]|)
    {
      0 <= x < width
    }

    /** The two bounds checks accept exactly the coordinates of the grid's cells. */
    lemma ValidCoordinatesAreCells(x: int, y: int)
      requires Valid()
      ensures IsValidCol(x) && IsValidRow(y) <==> InBoard(cells, x, y)
    {
    }

    /**
      __get_neighbours_range: the window of (x, y) clamped to the board; an
      error for coordinates off the board.
     */
    function NeighboursRange(x: int, y: int): (window: Result<Window>)
      reads this
      ensures window.Err? <==> !(IsValidCol(x) && IsValidRow(y))
      ensures window.Err? ==> window.error == InvalidCoordinates(x, y)
      ensures window.Ok? ==>
        window.value == Window(Max(x - 1, 0), Max(y - 1, 0), Min(x + 1, width - 1), Min(y + 1, height - 1))
      ensures window.Ok? ==>
        0 <= window.value.fromX <= x <= window.value.toX < width
        && 0 <= window.value.fromY <= y <= window.value.toY < height
      ensures window.Ok? ==> forall c, r ::
        (window.value.Contains(c, r) && (c, r) != (x, y)) <==> (IsValidCol(c) && IsValidRow(r) && Adjacent(x, y, c, r))
    {
      if !(IsValidCol(x) && IsValidRow(y)) then
        Err(InvalidCoordinates(x, y))
      else
        var fromX := if x > 0 then x - 1 else x;
        var fromY := if y > 0 then y - 1 else y;
        var toX := if x < width - 1 then x + 1 else x;
        var toY := if y < height - 1 then y + 1 else y;
        Ok(Window(fromX, fromY, toX, toY))
    }

    /** is_mine_at: only for coordinates on the board. */
    function IsMineAt(x: int, y: int): (mine: bool)
      reads this
      requires Shaped(cells, width, height) && IsValidCol(x) && IsValidRow(y)
      ensures mine <==> MineAt(cells, x, y) == 1
      ensures mine ==> MineTotal(cells) >= 1
    {
      if cells[y][x].hasMine then
        MineTotalWithMine(cells, x, y);
        true
      else
        false
    }

    /**
      plant_mine: refuses coordinates off the board and a cell that already
      holds a mine, changing nothing; otherwise the grid becomes
      Planted(old grid, x, y) and the mine count grows by one.
     */
    method PlantMine(x: int, y: int) returns (r: Result<()>)
      requires Valid()
      modifies this
      ensures Valid()
      ensures !(IsValidCol(x) && IsValidRow(y)) ==>
        r == Err(InvalidCoordinates(x, y)) && cells == old(cells) && numberOfMines == old(numberOfMines)
      ensures IsValidCol(x) && IsValidRow(y) && old(cells[y][x].hasMine) ==>
        r == Err(MineAlreadyPlaced(x, y)) && cells == old(cells) && numberOfMines == old(numberOfMines)
      ensures IsValidCol(x) && IsValidRow(y) && !old(cells[y][x].hasMine) ==>
        r == Ok(()) && cells == Planted(old(cells), x, y) && numberOfMines == old(numberOfMines) + 1
    {
      if !(IsValidCol(x) && IsValidRow(y)) {
        return Err(InvalidCoordinates(x, y));
      }
      if IsMineAt(x, y) {
        return Err(MineAlreadyPlaced(x, y));
      }
      ghost var g0 := cells;
      cells := cells[y := cells[y][x := NewCell(true)]];
      var window := NeighboursRange(x, y).value;
      PlantStart(g0, x, y, window.fromX, window.fromY);
      var row := window.fromY;
      while row <= window.toY
        invariant window.fromY <= row <= window.toY + 1
        invariant numberOfMines == old(numberOfMines)
        invariant PlantedBefore(g0, cells, x, y, window.fromX, row)
      {
        var col := window.fromX;
        while col <= window.toX
          invariant window.fromX <= col <= window.toX + 1
          invariant numberOfMines == old(numberOfMines)
          invariant PlantedBefore(g0, cells, x, y, col, row)
        {
          ghost var g := cells;
          if (col, row) != (x, y) {
            if !IsMineAt(col, row) {
              var cell := cells[row][col];
              cells := cells[row := cells[row][col := cell.(adjacentMines := cell.adjacentMines + 1)]];
            }
          }
          PlantVisitStep(g0, g, x, y, col, row);
          col := col + 1;
        }
        PlantNextRow(g0, x, y, cells, col, row, window.fromX);
        row := row + 1;
      }
      PlantDone(g0, cells, x, y, window.fromX, row);
      PlantedKeepsInvariant(g0, x, y);
      numberOfMines := numberOfMines + 1;
      r := Ok(());
    }

    /**
      expand: an error for coordinates off the board, with nothing changed.
      Otherwise the flood fill around (x, y): it only uncovers; every
      neighbour of (x, y) ends up uncovered; every zero-count cell it uncovers
      has all its neighbours uncovered; every cell it uncovers is reached from
      (x, y) through zero-count cells it uncovered. Started from a clear cell
      with count 0, it uncovers no mine.
     */
    method Expand(x: int, y: int) returns (r: Result<()>)
      requires Valid()
      modifies this
      ensures Valid() && numberOfMines == old(numberOfMines)
      ensures r.Err? <==> !(IsValidCol(x) && IsValidRow(y))
      ensures r.Err? ==> r.error == InvalidCoordinates(x, y) && cells == old(cells)
      ensures RevealedFrom(old(cells), cells)
      ensures r.Ok? ==>
        && NeighboursUncovered(cells, x, y)
        && ZeroCellsExpanded(old(cells), cells)
        && FilledFrom(old(cells), cells, x, y)
      ensures r.Ok? && !old(cells)[y][x].hasMine && old(cells)[y][x].adjacentMines == 0 ==>
        NoMineUncovered(old(cells), cells)
      decreases CoveredCells(cells), 1
    {
      var range := NeighboursRange(x, y);
      if range.Err? {
        return Err(range.error);
      }
      var window := range.value;
      ghost var g0: Grid := cells;
      ghost var startsClear := !g0[y][x].hasMine && g0[y][x].adjacentMines == 0;
      var row := window.fromY;
      UncoveredStart(cells, x, y, window.fromX, row);
      while row <= window.toY
        invariant window.fromY <= row <= window.toY + 1
        invariant Valid() && numberOfMines == old(numberOfMines)
        invariant RevealedFrom(g0, cells)
        invariant UncoveredBefore(cells, x, y, window.fromX, row)
        invariant ZeroCellsExpanded(g0, cells) && FilledFrom(g0, cells, x, y)
        invariant startsClear ==> NoMineUncovered(g0, cells)
      {
        var col := window.fromX;
        while col <= window.toX
          invariant window.fromX <= col <= window.toX + 1
          invariant Valid() && numberOfMines == old(numberOfMines)
          invariant RevealedFrom(g0, cells)
          invariant UncoveredBefore(cells, x, y, col, row)
          invariant ZeroCellsExpanded(g0, cells) && FilledFrom(g0, cells, x, y)
          invariant startsClear ==> NoMineUncovered(g0, cells)
        {
          if (col, row) != (x, y) {
            ghost var gp := cells;
            RevealedFromCovered(g0, cells);
            VisitNeighbour(x, y, col, row, g0, startsClear);
            UncoveredKept(gp, cells, x, y, col, row);
          }
          UncoveredStep(cells, x, y, col, row);
          col := col + 1;
        }
        UncoveredNextRow(cells, x, y, col, row, window.fromX);
        row := row + 1;
      }
      UncoveredDone(cells, x, y, window.fromX, row);
      r := Ok(());
    }

    /**
      One pass of expand's inner loop, on the neighbour (col, row) of (x, y): a
      covered neighbour is revealed, and when its count is 0 the flood fill
      continues from it; an uncovered one is left as it is. g0 is the grid
      expand started from.
     */
    method VisitNeighbour(x: int, y: int, col: int, row: int, ghost g0: Grid, ghost startsClear: bool)
      requires Valid() && IsValidCol(x) && IsValidRow(y) && IsValidCol(col) && IsValidRow(row)
      requires Adjacent(x, y, col, row)
      requires RevealedFrom(g0, cells) && ZeroCellsExpanded(g0, cells) && FilledFrom(g0, cells, x, y)
      requires startsClear ==>
        && CountsConsistent(g0) && InBoard(g0, x, y) && !g0[y][x].hasMine && g0[y][x].adjacentMines == 0
        && NoMineUncovered(g0, cells)
      modifies this
      ensures Valid() && numberOfMines == old(numberOfMines)
      ensures old(cells)[row][col].uncovered ==> cells == old(cells)
      ensures RevealedFrom(old(cells), cells)
      ensures RevealedFrom(g0, cells) && ZeroCellsExpanded(g0, cells) && FilledFrom(g0, cells, x, y)
      ensures startsClear ==> NoMineUncovered(g0, cells)
      ensures cells[row][col].uncovered
      decreases CoveredCells(cells), 0
    {
      var c := cells[row][col];
      if !c.uncovered {
        ghost var gp := cells;
        c := Reveal(c);
        cells := cells[row := cells[row][col := c]];
        assert cells == RevealAt(gp, col, row);
        RevealAtShrinksCovered(gp, gp, col, row);
        RevealedFromKeepsInvariant(gp, cells);
        if c.adjacentMines > 0 {
        } else {
          var _ := Expand(col, row);
        }
        ExpandStep(g0, gp, cells, x, y, col, row);
        FillStep(g0, gp, cells, x, y, col, row);
        RevealedFromTransitive(gp, RevealAt(gp, col, row), cells);
        if startsClear {
          NoMineStep(g0, gp, cells, x, y, col, row);
        }
      }
    }

    /**
      uncover: an error for coordinates off the board; otherwise the cell at
      (x, y) is revealed and returned, and the flood fill runs from it when it
      is a clear cell with count 0. A mine or a numbered cell is the only cell
      that changes. The fill's reach is counted from the grid with (x, y)
      already revealed, as the source reveals it before expanding.
     */
    method Uncover(x: int, y: int) returns (r: Result<Cell>)
      requires Valid()
      modifies this
      ensures Valid() && numberOfMines == old(numberOfMines)
      ensures RevealedFrom(old(cells), cells)
      ensures !(IsValidCol(x) && IsValidRow(y)) ==> r == Err(InvalidCoordinates(x, y)) && cells == old(cells)
      ensures IsValidCol(x) && IsValidRow(y) ==> r == Ok(cells[y][x]) && cells[y][x] == Reveal(old(cells[y][x]))
      ensures IsValidCol(x) && IsValidRow(y) && (old(cells[y][x].hasMine) || old(cells[y][x].adjacentMines) > 0) ==>
        cells == RevealAt(old(cells), x, y)
      ensures IsValidCol(x) && IsValidRow(y) && !old(cells[y][x].hasMine) && old(cells[y][x].adjacentMines) == 0 ==>
        && NeighboursUncovered(cells, x, y)
        && ZeroCellsExpanded(old(cells), cells)
        && FilledFrom(RevealAt(old(cells), x, y), cells, x, y)
        && NoMineUncovered(old(cells), cells)
    {
      if !(IsValidCol(x) && IsValidRow(y)) {
        return Err(InvalidCoordinates(x, y));
      }
      ghost var g0 := cells;
      var cell := Reveal(cells[y][x]);
      cells := cells[y := cells[y][x := cell]];
      assert RevealedFrom(g0, cells);
      RevealedFromKeepsInvariant(g0, cells);
      if cell.hasMine {
      } else if cell.adjacentMines > 0 {
      } else {
        ghost var gm := cells;
        ZeroCountMeansClearNeighbours(g0, x, y);
        var _ := Expand(x, y);
        RevealedFromTransitive(g0, gm, cells);
        ExpandFromStart(g0, gm, cells, x, y);
      }
      r := Ok(cells[y][x]);
    }

    /**
      __generate_mines: an error when n is outside [0, width * height];
      otherwise shots are taken in order, each planting a mine on the cell it
      falls on unless that cell already holds one, until the board holds n
      mines or the shots run out. shotsUsed is the number of shots taken.
     */
    method GenerateMines(n: int, shots: seq<int>) returns (r: Result<nat>)
      requires Valid()
      requires forall i | 0 <= i < |shots| :: 0 <= shots[i] < width * height
      modifies this
      ensures Valid()
      ensures !(0 <= n <= width * height) ==>
        r == Err(InvalidMineCount(n, width * height)) && cells == old(cells) && numberOfMines == old(numberOfMines)
      ensures 0 <= n <= width * height ==> r.Ok? && r.value <= |shots|
      ensures r.Ok? ==> cells == PlantShots(old(cells), width, height, shots[..r.value])
      ensures r.Ok? ==> forall k | 0 <= k < r.value ::
        MineTotal(PlantShots(old(cells), width, height, shots[..k])) < n
      ensures r.Ok? ==> numberOfMines >= n || r.value == |shots|
      ensures r.Ok? && old(numberOfMines) <= n ==> numberOfMines <= n
    {
      var fieldCount := width * height;
      if !(0 <= n <= fieldCount) {
        return Err(InvalidMineCount(n, fieldCount));
      }
      ghost var g0 := cells;
      var used := 0;
      while numberOfMines < n && used < |shots|
        invariant 0 <= used <= |shots|
        invariant Valid()
        invariant cells == PlantShots(g0, width, height, shots[..used])
        invariant used > 0 ==> MineTotal(PlantShots(g0, width, height, shots[..used - 1])) < n
        invariant old(numberOfMines) <= n ==> numberOfMines <= n
      {
        var shot := shots[used];
        var (x, y) := ShotCoords(width, height, shot);
        PlantShotsStep(g0, width, height, shots, used);
        if !IsMineAt(x, y) {
          var _ := PlantMine(x, y);
        }
        used := used + 1;
      }
      forall k | 0 <= k < used
        ensures MineTotal(PlantShots(g0, width, height, shots[..k])) < n
      {
        PlantShotsGrows(g0, width, height, shots, k, used - 1);
      }
      r := Ok(used);
    }
  }

  /**
    What uncover adds on top of expand: the start cell itself was revealed
    first, so the facts about the fill from (x, y) hold from the grid before
    the reveal.
   */
  lemma ExpandFromStart(g0: Grid, gm: Grid, g2: Grid, x: int, y: int)
    requires CountsConsistent(g0) && InBoard(g0, x, y) && !g0[y][x].hasMine && g0[y][x].adjacentMines == 0
    requires gm == RevealAt(g0, x, y) && RevealedFrom(gm, g2)
    requires ZeroCellsExpanded(gm, g2) && NeighboursUncovered(g2, x, y) && NoMineUncovered(gm, g2)
    ensures ZeroCellsExpanded(g0, g2) && NoMineUncovered(g0, g2)
  {
    forall r, c | NewlyUncovered(g0, g2, c, r) && g2[r][c].adjacentMines == 0
      ensures NeighboursUncovered(g2, c, r)
    {
      if (c, r) != (x, y) {
        assert NewlyUncovered(gm, g2, c, r);
      }
    }
    forall r, c | NewlyUncovered(g0, g2, c, r) ensures !g2[r][c].hasMine {
      if (c, r) != (x, y) {
        assert NewlyUncovered(gm, g2, c, r);
      }
    }
  }

  /** The 6-wide, 4-high board with one mine at (2, 2): covered cells, count 1 exactly around the mine. */
  lemma OneMineBoard()
    ensures var g := Planted(Filled(6, 4), 2, 2);
      && Shaped(g, 6, 4)
      && (forall r, c | InBoard(g, c, r) :: !g[r][c].uncovered && g[r][c].hasMine == ((c, r) == (2, 2)))
      && (forall r, c | InBoard(g, c, r) :: g[r][c].adjacentMines == if Adjacent(2, 2, c, r) then 1 else 0)
  {
    PlantedEffect(Filled(6, 4), 2, 2);
  }

  /**
    The 6-wide, 4-high board with one mine at (2, 2), uncovered from the corner
    (5, 3): whatever grid meets uncover's guarantees has the far corner (0, 0)
    uncovered, reached through zero-count cells.
   */
  lemma UncoverFromCornerReachesFarCorner(g2: Grid)
    requires RevealedFrom(Planted(Filled(6, 4), 2, 2), g2)
    requires NeighboursUncovered(g2, 5, 3)
    requires ZeroCellsExpanded(Planted(Filled(6, 4), 2, 2), g2)
    ensures g2[0][0].uncovered
  {
    var g0 := Planted(Filled(6, 4), 2, 2);
    OneMineBoard();
    assert InBoard(g2, 4, 2) && g2[2][4].uncovered;
    ZeroCellSpreads(g0, g2, 4, 2, 4, 1);
    ZeroCellSpreads(g0, g2, 4, 1, 3, 0);
    ZeroCellSpreads(g0, g2, 3, 0, 2, 0);
    ZeroCellSpreads(g0, g2, 2, 0, 1, 0);
    ZeroCellSpreads(g0, g2, 1, 0, 0, 0);
  }

  /**
    On the same board and the same call, (2, 3) stays covered: it is not next
    to (5, 3), and its neighbours are the mine, which is never uncovered, and
    cells with count 1, from which the fill does not go on.
   */
  lemma UncoverFromCornerSkipsPocket(g2: Grid)
    requires RevealedFrom(Planted(Filled(6, 4), 2, 2), g2)
    requires FilledFrom(RevealAt(Planted(Filled(6, 4), 2, 2), 5, 3), g2, 5, 3)
    requires NoMineUncovered(Planted(Filled(6, 4), 2, 2), g2)
    ensures !g2[3][2].uncovered
  {
    var g0 := Planted(Filled(6, 4), 2, 2);
    var gb := RevealAt(g0, 5, 3);
    OneMineBoard();
    forall path: seq<(int, int)> | FillPath(gb, g2, path) && path[0] == (5, 3)
      ensures path[|path| - 1] != (2, 3)
    {
      if |path| > 2 {
        var p := path[|path| - 2];
        assert ZeroUncovered(gb, g2, p);
        assert NewlyUncovered(g0, g2, p.0, p.1);
        if path[|path| - 1] == (2, 3) {
          assert false;
        }
      } else {
        assert Adjacent(path[0].0, path[0].1, path[1].0, path[1].1);
      }
    }
    assert !Reaches(gb, g2, 5, 3, 2, 3);
  }

  /** A 6-wide, 1-high board with one mine at (2, 0): counts 0 1 M 1 0 0. */
  lemma OneMineRow()
    ensures var g := Planted(Filled(6, 1), 2, 0);
      && Shaped(g, 6, 1)
      && (forall c | 0 <= c < 6 :: !g[0][c].uncovered && g[0][c].hasMine == (c == 2))
      && (forall c | 0 <= c < 6 :: g[0][c].adjacentMines == if c == 1 || c == 3 then 1 else 0)
  {
    PlantedEffect(Filled(6, 1), 2, 0);
  }

  /**
    On that row, uncovering (0, 0) uncovers (1, 0) and nothing further: the
    zero-count cells (4, 0) and (5, 0) lie beyond the numbered cell (1, 0) and
    the mine, so the fill cannot reach them.
   */
  lemma UncoverLeavesDetachedRegionCovered(g2: Grid)
    requires RevealedFrom(Planted(Filled(6, 1), 2, 0), g2)
    requires FilledFrom(RevealAt(Planted(Filled(6, 1), 2, 0), 0, 0), g2, 0, 0)
    ensures forall c | 2 <= c < 6 :: !g2[0][c].uncovered
  {
    var g0 := Planted(Filled(6, 1), 2, 0);
    var gb := RevealAt(g0, 0, 0);
    OneMineRow();
    forall path: seq<(int, int)> | FillPath(gb, g2, path) && path[0] == (0, 0)
      ensures path[|path| - 1].0 < 2
    {
      assert Adjacent(path[0].0, path[0].1, path[1].0, path[1].1);
      if |path| > 2 {
        assert false;
      }
    }
    forall c | 2 <= c < 6 ensures !g2[0][c].uncovered {
      assert !Reaches(gb, g2, 0, 0, c, 0);
      assert !NewlyUncovered(gb, g2, c, 0);
    }
  }
}
