/** Destination generation for a selected piece. Only the pawn has a rule:
    one step forward onto an empty square. */
module Moves {

  import opened Optional
  import opened Grid

  /** The two letters the generator recognises, `p` in either case. */
  predicate IsPawn(piece: Cell)
  {
    piece == "P" || piece == "p"
  }

  /** The row offset of a pawn's step: toward row 0 for white, row 7 for black. */
  function Forward(piece: Cell): int
  {
    if piece == "P" then -1 else 1
  }

  /** Reference description of a destination: `to` is the square directly in
      front of a pawn standing on `from`, it lies on the board and it is empty. */
  predicate IsPawnStep(b: Board, piece: Cell, from: Square, to: Square)
    requires WellFormed(b)
  {
    && IsPawn(piece)
    && to.col == from.col
    && to.row == from.row + Forward(piece)
    && OnBoard(to)
    && At(b, to) == ""
  }

  /** The destinations of `piece` standing on (row, col). The forward square is
      probed with an optional-chained lookup, so a step off the board yields
      no destination instead of an error. */
  function ValidMoves(b: Board, piece: Cell, row: int, col: int): (r: seq<Square>)
    requires WellFormed(b)
    ensures |r| <= 1
    ensures forall to :: to in r <==> IsPawnStep(b, piece, Square(row, col), to)
    ensures forall to :: to in r ==> OnBoard(to) && At(b, to) == "" && to != Square(row, col)
  {
    if IsPawn(piece) then
      var direction := if piece == "P" then -1 else 1;
      if Lookup(b, row + direction, col) == Some("") then [Square(row + direction, col)] else []
    else
      []
  }

}
