/** Board coordinates and moves. */
module Moves {

  /** A (row, column) pair; row 0 is Black's home side, row 7 White's. */
  datatype Position = Position(row: int, col: int) {

    /** Inside the 8x8 board. */
    predicate IsValid() {
      0 <= row < 8 && 0 <= col < 8
    }
  }

  /** `Position::operator==`: componentwise comparison. */
  function SamePosition(a: Position, b: Position): (r: bool)
    ensures r <==> a == b
  {
    a.row == b.row && a.col == b.col
  }

  lemma SamePositionReflexive(a: Position)
    ensures SamePosition(a, a)
  {
  }

  lemma SamePositionSymmetric(a: Position, b: Position)
    ensures SamePosition(a, b) == SamePosition(b, a)
  {
  }

  /** A move: where a piece starts, where it lands, and the squares it jumps, in jump order. */
  datatype Move = Move(from: Position, to: Position, captured: seq<Position>) {

    predicate IsCapture() {
      |captured| > 0
    }

    /** Appends one jumped square at the end of the captured list. */
    function AddCaptured(p: Position): (m: Move)
      ensures m.from == from && m.to == to
      ensures |m.captured| == |captured| + 1
      ensures m.captured[..|captured|] == captured && m.captured[|captured|] == p
      ensures m.IsCapture()
    {
      this.(captured := captured + [p])
    }
  }

  /** The constructor `Move(from, to)`: nothing captured yet. */
  function NewMove(from: Position, to: Position): (m: Move)
    ensures m.from == from && m.to == to
    ensures !m.IsCapture()
  {
    Move(from, to, [])
  }
}
