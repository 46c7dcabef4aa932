/** One square of the board: an optional piece plus a highlight flag used only by a user interface. */
module Tiles {
  import opened Wrappers
  import opened Pieces

  datatype Tile = Tile(piece: Option<Piece>, highlighted: bool) {

    predicate HasPiece() {
      piece.Some?
    }

    /** The piece on the tile, or `None` where the source returns a null pointer. */
    function GetPiece(): (r: Option<Piece>)
      ensures r.Some? <==> HasPiece()
    {
      piece
    }

    function SetPiece(p: Piece): (t: Tile)
      ensures t.HasPiece() && t.GetPiece() == Some(p)
      ensures t.highlighted == highlighted
    {
      this.(piece := Some(p))
    }

    function RemovePiece(): (t: Tile)
      ensures !t.HasPiece()
      ensures t.highlighted == highlighted
    {
      this.(piece := None)
    }

    function SetHighlighted(value: bool): (t: Tile)
      ensures t.highlighted == value
      ensures t.GetPiece() == GetPiece()
    {
      this.(highlighted := value)
    }
  }

  /** A freshly constructed tile. */
  function DefaultTile(): (t: Tile)
    ensures !t.HasPiece() && !t.highlighted
  {
    Tile(None, false)
  }

  /** Removing a piece twice is the same as removing it once. */
  lemma RemovePieceIdempotent(t: Tile)
    ensures t.RemovePiece().RemovePiece() == t.RemovePiece()
  {
  }
}
