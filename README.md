# Minesweeper board model

A Dafny model of the board of a Minesweeper prototype: the `Cell` record with
its reveal/flag state machine and its two text renderings, and the
`MineBoard` that owns a `height x width` grid of cells stored row by row as
`cells[y][x]`. The board checks coordinates and computes the clamped 3x3
neighbour window. Planting a mine raises the adjacency counts of the clear
neighbours in place. Uncovering reveals one cell and flood-fills from
zero-count cells through the recursive `expand`. Mine generation plants mines
from a stream of board positions until the requested count is reached.

Layout:

- `results.dfy`: module `Results`. The `Error` values that stand for the
  `RuntimeError`s the source raises, plus `Result` and `Option`.
- `decimal.dfy`: module `Decimal`. `str()` of a non-negative integer, with a
  digit reader as its inverse; the renderings need it.
- `cell.dfy`: module `Cells`. The `Cell` datatype, its transitions `Reveal`
  and `Flag`, and the renderings `Representation` and `DebugRepresentation`.
- `grid.dfy`: module `Grids`. The grid as a value `seq<seq<Cell>>`, and the
  functions and relations that specify the board's methods:
  - `Planted` is the grid after `plant_mine`;
  - `CountsConsistent` is the board invariant: every clear cell counts the
    mines around it, and every mine's own count is 0;
  - `MineTotal` is the number of mines on the grid;
  - `RevealedFrom`, `NeighboursUncovered`, `ZeroCellsExpanded`,
    `FilledFrom` and `NoMineUncovered` describe the flood fill. `FilledFrom`
    says that every cell the fill uncovers is at the end of a `FillPath`: a
    chain of neighbouring cells from the start whose inner cells are
    zero-count cells the fill uncovered.
- `board.dfy`: module `Board`. The class `MineBoard`: a `cells` field the
  methods reassign, the board size, and `numberOfMines`. Its methods keep the
  source's nested row/column loops and the recursion of `expand`. Each method
  is proved against the functions in `Grids`. `Valid()` holds after
  construction and after every method: the grid has the board's shape,
  `numberOfMines` equals `MineTotal(cells)`, `CountsConsistent(cells)`
  holds, and no uncovered cell is flagged (`CellsConsistent(cells)`).

Modelling choices:

- A cell is a value. `reveal` and `flag` are functions that return the new
  cell, and the board stores the result back into its grid. `plant_mine`
  replaces the whole cell object, and `uncover` returns the cell, so the
  board is the only owner of its cells.
- The source's `RuntimeError`s are `Err` results, returned where the source
  raises them and before anything has changed. `expand` returns an error for
  off-board coordinates, as `__get_neighbours_range` raises, and `uncover`
  returns one from its own bounds check. The `IndexError`s Python raises on an off-board list index are not
  modelled: `IsMineAt` requires on-board coordinates (see "Left out"), and
  the off-board shot of mine generation is a finding below.
- The random positions of mine generation are a parameter `shots`, a
  sequence of integers in `[0, width * height)`, consumed in order.

## Model

| member | source | states |
|---|---|---|
| Cells.NewCell | model/cell.py:15-26 | a new cell holds a mine only when asked, has count 0, and is neither flagged nor uncovered |
| Cells.Reveal | model/cell.py:28-36 | reveal makes the cell uncovered and unflagged and keeps its mine and its count |
| Cells.RevealIdempotent | model/cell.py:28-36 | revealing a second time changes nothing |
| Cells.Flag | model/cell.py:38-47 | flag fails exactly on an uncovered cell; otherwise it sets `flagged` to the argument and keeps the mine, the count and the cover |
| Cells.TransitionsKeepConsistent | model/cell.py:28-47 | reveal and a successful flag both keep "uncovered implies not flagged" |
| Cells.Representation | model/cell.py:51-68 | a covered cell shows HIDDEN_MINE exactly when it holds a mine and hidden mines are shown, and HIDDEN_CELL otherwise; an uncovered mine shows "M"; an uncovered clear cell shows decimal digits without a leading zero, reading back as its count, when the count is positive, and EMPTY_CELL exactly when the count is 0 |
| Cells.Shorten | model/cell.py:73-74 | a flag becomes one letter, 'T' or 'F', and it is 'T' exactly when the flag is set |
| Cells.DebugRepresentation | model/cell.py:72-76 | the debug text is bracketed and its length is 5 plus the number of digits of the count |
| Cells.DebugRepresentationRoundTrip | model/cell.py:72-76 | the debug text `[` mine count flagged uncovered `]` reads back as the same cell, so it keeps every field |
| Decimal.FromNat | model/cell.py:67 | `str(n)` is a non-empty digit string with no leading zero unless n is 0 |
| Decimal.ToNatFromNat | model/cell.py:67 | reading the decimal text of n gives n back |
| Decimal.FromNatToNat | model/cell.py:67 | every digit string without a leading zero is the text of the number it denotes |
| Decimal.FromNatInjective | model/cell.py:67 | distinct counts render as distinct text |
| Grids.Filled | model/board.py:42-47 | fill builds `height` rows of `width` cells |
| Grids.FilledIsClear | model/board.py:42-47 | the filled grid has no mine and satisfies the board invariant |
| Board.MineBoard.constructor | model/board.py:9-22 | a new board has the given size and requested count, a filled grid, zero mines, and satisfies the board invariant |
| Board.MineBoard.Create | model/board.py:9-25 | with the corrected shot mapping (see "Findings"), construction fails with the invalid-count error exactly when more mines are requested than there are cells; with no mines requested the grid is the filled grid; otherwise it is the filled grid after the shots taken, and the board holds exactly the requested number of mines unless the shots ran out first |
| Board.MineBoard.IsValidRow | model/board.py:49-55 | on a valid board, a row number is accepted exactly when it indexes a row of the grid |
| Board.MineBoard.IsValidCol | model/board.py:57-64 | on a valid board with at least one row, a column number is accepted exactly when it indexes a cell of a row |
| Board.MineBoard.ValidCoordinatesAreCells | model/board.py:49-64 | the row and column checks accept exactly the coordinates of cells of the grid |
| Board.MineBoard.NeighboursRange | model/board.py:66-82 | an error exactly for coordinates off the board; otherwise the window is max(c-1, 0) to min(c+1, size-1) on each axis, so 0 <= from <= c <= to < size, and the window minus (x, y) is exactly the set of on-board neighbours |
| Board.MineBoard.IsMineAt | model/board.py:84-85 | defined for on-board coordinates only; true exactly when the counting function `MineAt` counts a mine at (x, y), so a mine found means the board has at least one mine |
| Board.MineBoard.PlantMine | model/board.py:87-121 | off-board coordinates and an occupied cell are refused with nothing changed; otherwise the grid becomes `Planted(old grid, x, y)`, the mine count grows by exactly one, and the board invariant still holds |
| Grids.Planted | model/board.py:106-118 | the grid after plant_mine(x, y): the same shape, with a fresh covered, unflagged mine cell of count 0 at (x, y); `PlantedEffect` fixes every other cell |
| Grids.PlantedEffect | model/board.py:106-118 | planting puts a fresh mine cell (count 0, unflagged, covered) at (x, y), adds 1 to the count of every clear neighbour, and leaves mine neighbours and every cell outside the window unchanged |
| Grids.MinesAroundAfterPlant | model/board.py:113-118 | after planting at (x, y), the number of mines around a cell rises by one exactly for the neighbours of (x, y) |
| Grids.PlantedKeepsInvariant | model/board.py:106-121 | planting on a clear cell keeps every clear cell's count equal to its number of neighbouring mines and every mine's count 0, and raises the mine total by one |
| Grids.FullBoardHasNoCounts | model/board.py:171-175 | under the invariant, a board holding width * height mines is all mines with all counts 0 |
| Board.MineBoard.Expand | model/board.py:123-142 | off-board coordinates give the invalid-coordinates error with nothing changed; otherwise expand only uncovers, and mines, counts and the mine count do not change; every neighbour of (x, y) ends up uncovered; every zero-count cell it uncovers has all its neighbours uncovered; every cell it uncovers is reached from (x, y) by a chain of neighbours through zero-count cells it uncovered; started from a clear zero-count cell it uncovers no mine; it terminates because each recursive call follows a covered-to-uncovered change |
| Board.MineBoard.VisitNeighbour | model/board.py:133-142 | one pass of expand's inner loop leaves the visited neighbour uncovered, changes nothing when it was uncovered already, and keeps the flood-fill facts established so far, reachability included |
| Board.MineBoard.Uncover | model/board.py:144-167 | off-board coordinates give an error with nothing changed; otherwise the revealed cell at (x, y) is returned; for a mine or a numbered cell no other cell changes; for a clear zero-count cell the flood fill runs: every neighbour uncovered, every uncovered zero-count cell expanded, every uncovered cell reached from (x, y), and no mine uncovered |
| Board.ExpandFromStart | model/board.py:157-165 | revealing the start cell first does not weaken the flood-fill guarantees taken from the grid before uncover |
| Grids.FillStep | model/board.py:136-142 | revealing one neighbour, and expanding from it when its count is 0, keeps every newly uncovered cell reachable from the start |
| Grids.FillPathEndUncovered | model/board.py:136-142 | the end of every fill path from (x, y) is uncovered by any fill from (x, y) that uncovers the neighbours and expands every zero-count cell it uncovers |
| Grids.FloodFillUnique | model/board.py:123-142 | the flood fill's guarantees fix its result: two grids that both meet them uncover the same cells |
| Grids.RevealedFromKeepsInvariant | model/board.py:130-142 | uncovering changes no mine and no count, so it keeps the board invariant and the mine total |
| Grids.RevealedFromKeepsUncoveredCells | model/board.py:136-137 | on a grid with no flagged uncovered cell, uncovering leaves every already uncovered cell exactly as it was, as the fill skips such cells |
| Grids.RevealedFromCovered | model/board.py:136-137 | uncovering never covers a cell again |
| Grids.RevealAtShrinksCovered | model/board.py:136-141 | revealing a covered cell strictly shrinks the set of covered cells, which is what bounds expand's recursion |
| Grids.ZeroCountMeansClearNeighbours | model/board.py:162-165 | under the invariant, a clear zero-count cell has no mine around it |
| Grids.ZeroCellSpreads | model/board.py:136-142 | a zero-count cell uncovered by the fill has each of its neighbours uncovered |
| Board.OneMineBoard | test_board_expand.py:37-46 | after planting one mine at (2, 2) on a fresh 6x4 board, every cell is covered, only (2, 2) holds a mine, and exactly its neighbours have count 1 |
| Board.UncoverFromCornerReachesFarCorner | test_board_expand.py:28-55 | uncovering (5, 3) on that board uncovers the far corner (0, 0) through zero-count cells |
| Board.UncoverFromCornerSkipsPocket | test_board_expand.py:28-55 | uncovering (5, 3) on that board leaves (2, 3) covered, since its only neighbours are the mine and cells with count 1 |
| Board.OneMineRow | model/board.py:106-118 | after planting one mine at (2, 0) on a fresh 6x1 board the counts read 0 1 M 1 0 0 |
| Board.UncoverLeavesDetachedRegionCovered | model/board.py:123-167 | uncovering (0, 0) on that row leaves every cell from (2, 0) on covered, including the zero-count cells (4, 0) and (5, 0) beyond the mine |
| Board.MineBoard.GenerateMines | model/board.py:169-185 | a count outside [0, width * height] is refused with nothing changed; otherwise the shots are taken in order, and each one plants on its cell unless that cell already holds a mine; before every shot taken the board held fewer than n mines; it stops on reaching n mines or when the shots run out, and never overshoots n |
| Board.PlantShots | model/board.py:175-185 | the grid after the generation loop has taken the given shots in order, each planting on the cell it maps to unless that cell already holds a mine; it keeps the board's shape |
| Board.PlantShotsKeepsInvariant | model/board.py:175-185 | planting along the shots keeps the count invariant and "uncovered implies not flagged" for every cell, and each shot adds at most one mine |
| Board.PlantShotsGrows | model/board.py:183-185 | the mine total never decreases along the shots |
| Board.GeneratedBoardIsConsistent | model/board.py:22-25 | a generated board satisfies the count invariant |
| Board.ShotCoords | model/board.py:178-181 | a shot in [0, width * height) maps to an on-board cell (column shot % width, row shot / width) with shot = row * width + column |
| Board.ShotCoordsOnto | model/board.py:178-181 | every cell is the image of the shot row * width + column, so every cell can be reached |
| Board.SourceShotCoords | model/board.py:181 | the row mapping as written: column shot % width, row shot // height |
| Board.ShotCoordsAgreeOnSquareBoards | model/board.py:181 | on a square board the written row mapping and the corrected one agree |
| Board.SourceShotLeavesWideBoard | model/board.py:181 | on a 2-wide, 1-high board the written mapping sends shot 1 to row 1, off the board |
| Board.SourceShotMissesRowsOfTallBoard | model/board.py:181 | on a 1-wide, 2-high board the written mapping sends every shot to row 0 |

## Left out

- Text rendering of the whole board (`MineBoard.__str__`, `__repr__`) and `Cell.__str__`/`__repr__`: presentation only. They read the process-wide flags `REVEAL_HIDDEN_MINE` and `DEBUG_INFO`, and `model/__init__.py` is not part of this model. `Representation` takes `revealHiddenMine` as a parameter instead.
- `random.randint`: the positions are the parameter `shots`. No claim is made about their distribution.
- Board.MineBoard.GenerateMines: returns when the shots run out before n mines are planted. The source's rejection loop draws for ever, and its termination cannot be proved.
- Object identity and aliasing of `Cell` objects: cells are values. The cell `uncover` returns is equal to the stored one, not the same object.
- Board.MineBoard.IsMineAt: requires on-board coordinates. Python's negative-index wrap-around and the `IndexError` for other off-board coordinates are not modelled. `plant_mine` calls it only after its own bounds check (model/board.py:99-103) and on cells of the clamped window (model/board.py:113-117); `__generate_mines` (model/board.py:184) calls it without a check, and its off-board row is the finding below.
- Board.MineBoard.GenerateMines: maps a shot to row `shot / width`, the corrected mapping, not the written `shot // height`. On non-square boards it therefore does not model the source's `IndexError` (wide boards) or its missed rows (tall boards); `Board.SourceShotCoords` and the lemmas beside it model the written mapping.
- Board.MineBoard.Create: inherits the corrected mapping from `GenerateMines`. On a non-square board the source can also fail with `IndexError` or draw for ever where the model succeeds.
- Default arguments (`width=8, height=8, expected_number_of_mines=0` of the board, `has_mine=False` of a cell, `reveal_hidden_mine=False` of `get_representation`): Dafny has no default parameters, so every caller passes all arguments.
- Board.MineBoard.constructor: width and height are `nat`. A negative size, which Python accepts and turns into an empty grid, is not modelled.
- Cells.DebugRepresentation: the count is a `nat`. The source never stores a negative count, and `str()` of a negative number is not modelled.
- `Cell.flag` and `Cell.reveal` mutate one cell in place. Here they return the changed cell, and the board writes it back.

## Findings

| source | as written | input that shows it | evidently intended | confidence | as-written member | corrected member |
|---|---|---|---|---|---|---|
| model/board.py:181 | the row of a shot is `shot // self.height` | width 2, height 1, shot 1 gives row 1, off the board (`is_mine_at` then raises `IndexError`); width 1, height 2 sends every shot to row 0, so requesting 2 mines never terminates | the row is `shot // self.width`, so every shot lands on the board and every cell can be hit | not executed | Board.SourceShotCoords, Board.SourceShotLeavesWideBoard, Board.SourceShotMissesRowsOfTallBoard | Board.ShotCoords, Board.ShotCoordsOnto |

On square boards the two mappings agree (`Board.ShotCoordsAgreeOnSquareBoards`).
`GenerateMines` uses the corrected mapping.
