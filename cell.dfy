/**
  One square of the minefield: whether it holds a mine, how many mines surround
  it, and whether the player has flagged or uncovered it.
 */
module Cells {
  import opened Results
  import Decimal

  /** Glyph of an uncovered cell with no mine and no mine around it (WHITE SQUARE). */
  const EMPTY_CELL: string := "\U{25A1}"
  /** Glyph of a covered cell (BLACK SQUARE). */
  const HIDDEN_CELL: string := "\U{25A0}"
  /** Glyph of a covered mine when hidden mines are shown (WHITE SQUARE CONTAINING BLACK SMALL SQUARE). */
  const HIDDEN_MINE: string := "\U{25A3}"
  /** Glyph of an uncovered mine. */
  const MINE: string := "M"

  datatype Cell = Cell(hasMine: bool, adjacentMines: nat, flagged: bool, uncovered: bool)

  /** The cell invariant: an uncovered cell is never flagged. */
  predicate Consistent(c: Cell) {
    c.uncovered ==> !c.flagged
  }

  /** Cell(has_mine): no mine unless asked for, no count, not flagged, still covered. */
  function NewCell(hasMine: bool): (c: Cell)
    ensures c.hasMine == hasMine && c.adjacentMines == 0
    ensures !c.flagged && !c.uncovered && Consistent(c)
  {
    Cell(hasMine, 0, false, false)
  }

  /** reveal(): the cell becomes uncovered and loses its flag; mine and count stay. */
  function Reveal(c: Cell): (r: Cell)
    ensures r.uncovered && !r.flagged && Consistent(r)
    ensures r.hasMine == c.hasMine && r.adjacentMines == c.adjacentMines
  {
    c.(uncovered := true, flagged := false)
  }

  /** flag(on_off): refused on an uncovered cell, otherwise only the flag changes. */
  function Flag(c: Cell, on: bool): (r: Result<Cell>)
    ensures r.Err? <==> c.uncovered
    ensures r.Err? ==> r.error == UncoveredCannotBeFlagged
    ensures r.Ok? ==> r.value.flagged == on
    ensures r.Ok? ==> r.value.hasMine == c.hasMine && r.value.adjacentMines == c.adjacentMines
    ensures r.Ok? ==> r.value.uncovered == c.uncovered
  {
    if c.uncovered then Err(UncoveredCannotBeFlagged) else Ok(c.(flagged := on))
  }

  /** A second reveal changes nothing. */
  lemma RevealIdempotent(c: Cell)
    ensures Reveal(Reveal(c)) == Reveal(c)
  {
  }

  /** Whatever sequence of reveals and flags a cell goes through, it stays consistent. */
  lemma TransitionsKeepConsistent(c: Cell, on: bool)
    requires Consistent(c)
    ensures Consistent(Reveal(c))
    ensures Flag(c, on).Ok? ==> Consistent(Flag(c, on).value)
  {
  }

  /** get_representation: the one-glyph view of a cell. */
  function Representation(c: Cell, revealHiddenMine: bool): (glyph: string)
    ensures glyph == HIDDEN_CELL <==> !c.uncovered && !(c.hasMine && revealHiddenMine)
    ensures glyph == HIDDEN_MINE <==> !c.uncovered && c.hasMine && revealHiddenMine
    ensures glyph == MINE <==> c.uncovered && c.hasMine
    ensures glyph == EMPTY_CELL <==> c.uncovered && !c.hasMine && c.adjacentMines == 0
    ensures Decimal.IsDecimal(glyph) <==> c.uncovered && !c.hasMine && c.adjacentMines > 0
    ensures Decimal.IsDecimal(glyph) ==> Decimal.ToNat(glyph) == c.adjacentMines && glyph[0] != '0'
  {
    if !c.uncovered then
      if c.hasMine && revealHiddenMine then HIDDEN_MINE else HIDDEN_CELL
    else if c.hasMine then
      MINE
    else if c.adjacentMines > 0 then
      Decimal.ToNatFromNat(c.adjacentMines);
      Decimal.FromNat(c.adjacentMines)
    else
      EMPTY_CELL
  }

  predicate IsShortBool(ch: char) {
    ch == 'T' || ch == 'F'
  }

  /** shorten: a flag as one letter, read back by comparing with 'T'. */
  function Shorten(b: bool): (ch: char)
    ensures IsShortBool(ch) && (ch == 'T' <==> b)
  {
    if b then 'T' else 'F'
  }

  /** get_debug_representation: "[" mine count flagged uncovered "]", as in "[F1FT]". */
  function DebugRepresentation(c: Cell): (text: string)
    ensures |text| == |Decimal.FromNat(c.adjacentMines)| + 5
    ensures text[0] == '[' && text[|text| - 1] == ']'
  {
    "[" + [Shorten(c.hasMine)] + Decimal.FromNat(c.adjacentMines)
        + [Shorten(c.flagged), Shorten(c.uncovered)] + "]"
  }

  /** Reads a debug representation back into the cell it describes. */
  function ParseDebugRepresentation(text: string): Option<Cell> {
    if |text| >= 6 && text[0] == '[' && text[|text| - 1] == ']'
       && IsShortBool(text[1]) && IsShortBool(text[|text| - 3]) && IsShortBool(text[|text| - 2])
       && Decimal.IsDecimal(text[2..|text| - 3])
    then
      Some(Cell(text[1] == 'T', Decimal.ToNat(text[2..|text| - 3]),
                text[|text| - 3] == 'T', text[|text| - 2] == 'T'))
    else
      None
  }

  /** The debug representation loses nothing: it reads back as the same cell. */
  lemma DebugRepresentationRoundTrip(c: Cell)
    ensures ParseDebugRepresentation(DebugRepresentation(c)) == Some(c)
  {
    var digits := Decimal.FromNat(c.adjacentMines);
    var text := DebugRepresentation(c);
    assert text[2..|text| - 3] == digits;
    assert text[1] == Shorten(c.hasMine);
    assert text[|text| - 3] == Shorten(c.flagged);
    assert text[|text| - 2] == Shorten(c.uncovered);
    Decimal.ToNatFromNat(c.adjacentMines);
  }
}
