/**
 * Spreadsheet cells as the parser hands them to the roster import: a row is
 * a JavaScript array, so a column past its end reads as `undefined`.
 */
module Cells {
  /** A cell value: missing (`undefined`, also a hole in a sparse row), text, or a number. */
  datatype Cell = Absent | Text(s: string) | Number(n: int)

  /** JavaScript truthiness of a cell value: `undefined`, `""` and `0` are falsy. */
  predicate Truthy(c: Cell)
  {
    match c
    case Absent => false
    case Text(s) => s != ""
    case Number(n) => n != 0
  }

  /** `row[col]` in JavaScript. */
  function CellAt(row: seq<Cell>, col: nat): (c: Cell)
    ensures col >= |row| ==> c == Absent
    ensures col < |row| ==> c == row[col]
  {
    if col < |row| then row[col] else Absent
  }
}
