/** A draughts piece: a colour fixed at creation and a rank that can only be raised. */
module Pieces {

  datatype Color = White | Black

  datatype PieceType = Man | King

  /** The type carries no setter for the colour, so a piece keeps its colour for its whole life. */
  datatype Piece = Piece(color: Color, kind: PieceType)

  /** The other side. */
  function Opponent(c: Color): (r: Color)
    ensures r != c
  {
    if c == White then Black else White
  }

  lemma OpponentInvolutive(c: Color)
    ensures Opponent(Opponent(c)) == c
  {
  }

  /** The constructor; the rank defaults to a man when none is given. */
  function NewPiece(color: Color, kind: PieceType := Man): (p: Piece)
    ensures p.color == color && p.kind == kind
  {
    Piece(color, kind)
  }

  predicate IsKing(p: Piece) {
    p.kind == King
  }

  /** Promotion: the rank becomes King, the colour stays. */
  function MakeKing(p: Piece): (q: Piece)
    ensures IsKing(q)
    ensures q.color == p.color
    ensures IsKing(p) ==> q == p
  {
    p.(kind := King)
  }

  /** A piece built without a rank is a man of the given colour. */
  lemma DefaultRankIsMan(c: Color)
    ensures NewPiece(c).kind == Man && !IsKing(NewPiece(c))
  {
  }

  /** Promoting twice is the same as promoting once. */
  lemma MakeKingIdempotent(p: Piece)
    ensures MakeKing(MakeKing(p)) == MakeKing(p)
  {
  }
}
