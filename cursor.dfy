/** The cursor record of include/cursor.h. Field widths are `unsigned int`
    in C; the model uses unbounded naturals. */
module Cursor {

  /** A document position: column `x`, row `y`. */
  datatype Coords = Coords(x: nat, y: nat)

  datatype Cursor = Cursor(
    selectAnchor: Coords,
    selectOffset: Coords,
    x: nat,
    y: nat,
    rowOff: nat,
    colOff: nat,
    renderX: nat,
    selectActive: bool)

  /** Where the editor starts: the origin, no scroll, no selection, and the
      unused anchor and offset at the origin too. */
  function Initial(lnPad: nat): (c: Cursor)
    ensures c.x == 0 && c.y == 0 && c.rowOff == 0 && c.colOff == 0
    ensures !c.selectActive && c.renderX == lnPad
  {
    Cursor(Coords(0, 0), Coords(0, 0), 0, 0, 0, 0, lnPad, false)
  }

  /** The position part of a cursor, which is what undo snapshots restore. */
  function Position(c: Cursor): Coords { Coords(c.x, c.y) }
}
