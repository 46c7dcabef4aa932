/**
 * The static evaluator `evaluateBoard`: material, square table, advancement, edge and back-row
 * terms per piece (added for Black, subtracted for White), then mobility, an endgame material
 * term, and the four terminal verdicts. Positive scores favour Black, the side the search maximises.
 */
module Evaluation {
  import opened Wrappers
  import opened Pieces
  import opened Tiles
  import opened Moves
  import opened Boards
  import opened Rules
  import opened MoveGen

  const PIECE_VALUE: int := 100
  const KING_VALUE: int := 300
  const MOBILITY_WEIGHT: int := 5
  const ADVANCEMENT_WEIGHT: int := 3
  const CENTER_CONTROL_WEIGHT: int := 2
  const EDGE_PENALTY: int := -10
  const BACK_ROW_BONUS: int := 5
  const ENDGAME_PIECES: int := 8
  const ENDGAME_WEIGHT: int := 50
  const LOSS: int := -10000
  const WIN: int := 10000

  /** Square weights, larger towards the centre. */
  const POSITION_TABLE: seq<seq<int>> := [
    [0, 1, 0, 1, 0, 1, 0, 1],
    [1, 0, 2, 0, 2, 0, 2, 0],
    [0, 2, 0, 3, 0, 3, 0, 2],
    [1, 0, 3, 0, 4, 0, 3, 0],
    [0, 3, 0, 4, 0, 3, 0, 1],
    [2, 0, 3, 0, 3, 0, 2, 0],
    [0, 2, 0, 2, 0, 2, 0, 1],
    [1, 0, 1, 0, 1, 0, 1, 0]
  ]

  /** The centre-control term of a piece on `p`: twice the table weight, between 0 and 8. */
  function PositionBonus(p: Position): (r: int)
    requires p.IsValid()
    ensures 0 <= r <= 8
  {
    var row := POSITION_TABLE[p.row];
    assert |row| == 8 && forall j :: 0 <= j < 8 ==> 0 <= row[j] <= 4;
    row[p.col] * CENTER_CONTROL_WEIGHT
  }

  /** The advancement term: `(7 - row) * 3` for a black man, `row * 3` for a white man, 0 for kings. */
  function Advancement(piece: Piece, row: int): int
  {
    if piece.kind == King then 0
    else if piece.color == Black then (7 - row) * ADVANCEMENT_WEIGHT
    else row * ADVANCEMENT_WEIGHT
  }

  /** The edge term: a man on the first or last column loses 10. */
  function EdgeTerm(piece: Piece, col: int): int
  {
    if piece.kind != King && (col == 0 || col == 7) then EDGE_PENALTY else 0
  }

  /** The back-row term: a black man on row 7 or a white man on row 0 gains 5. */
  function BackRowTerm(piece: Piece, row: int): int
  {
    if piece.kind != King && ((piece.color == Black && row == 7) || (piece.color == White && row == 0))
    then BACK_ROW_BONUS else 0
  }

  /** The value of one piece on `p`, before its sign is applied. A man is worth 90 to 134, a
      king 300 to 308; so any king outweighs any man. */
  function PieceScore(piece: Piece, p: Position): (r: int)
    requires p.IsValid()
    ensures piece.kind == Man ==> 90 <= r <= 134
    ensures piece.kind == King ==> KING_VALUE <= r <= KING_VALUE + 8
  {
    (if piece.kind == King then KING_VALUE else PIECE_VALUE)
    + PositionBonus(p) + Advancement(piece, p.row) + EdgeTerm(piece, p.col) + BackRowTerm(piece, p.row)
  }

  lemma KingOutweighsMan(king: Piece, p: Position, man: Piece, q: Position)
    requires p.IsValid() && q.IsValid() && king.kind == King && man.kind == Man
    ensures PieceScore(king, p) > PieceScore(man, q) + 150
  {
  }

  /** A king's value depends only on its square: colour, advancement, edge and back row play no part. */
  lemma KingScoreIsPositional(king: Piece, p: Position)
    requires p.IsValid() && king.kind == King
    ensures PieceScore(king, p) == KING_VALUE + PositionBonus(p)
    ensures PieceScore(king, p) == PieceScore(Piece(Opponent(king.color), King), p)
  {
  }

  /** As coded, the advancement term shrinks by 3 with every forward step of a man: it is
      largest on the side's own back rows and smallest on its promotion row. */
  lemma AdvancementRewardsStayingBack(color: Color, row: int)
    requires 0 <= row < 8 && 0 <= row + Forward(color) < 8
    ensures Advancement(Piece(color, Man), row + Forward(color)) == Advancement(Piece(color, Man), row) - ADVANCEMENT_WEIGHT
    ensures Advancement(Piece(color, Man), PromotionRow(color)) == 0
    ensures Advancement(Piece(color, Man), 7 - PromotionRow(color)) == 7 * ADVANCEMENT_WEIGHT
  {
  }

  /** The back-row bonus is paid exactly to a man standing on its own promotion row. */
  lemma BackRowIsPromotionRow(piece: Piece, row: int)
    ensures BackRowTerm(piece, row) != 0 <==> piece.kind == Man && row == PromotionRow(piece.color)
  {
  }

  // ---------------------------------------------------------------------------
  // The square-by-square tally (the nested loops)
  // ---------------------------------------------------------------------------

  /** The running state of the scan: signed piece score and the piece counts per side. */
  datatype Tally = Tally(score: int, black: nat, white: nat)

  /** The tally contributed by square `p` alone. */
  function SquareTally(b: Board, p: Position): (t: Tally)
    requires p.IsValid()
    ensures t.black == (if HasPieceOf(b, p, Black) then 1 else 0)
    ensures t.white == (if HasPieceOf(b, p, White) then 1 else 0)
    ensures -308 <= t.score <= 308
  {
    match PieceAt(b, p)
    case None => Tally(0, 0, 0)
    case Some(piece) =>
      var v := PieceScore(piece, p);
      if piece.color == Black then Tally(v, 1, 0) else Tally(-v, 0, 1)
  }

  /** Squares `col`..7 of `row`. */
  function TallyInRow(b: Board, row: int, col: int): (t: Tally)
    requires 0 <= row < 8 && 0 <= col <= 8
    ensures t.black + t.white <= 8 - col
    ensures -308 * (8 - col) <= t.score <= 308 * (8 - col)
    decreases 8 - col
  {
    if col == 8 then Tally(0, 0, 0)
    else
      var here := SquareTally(b, Position(row, col));
      var rest := TallyInRow(b, row, col + 1);
      Tally(here.score + rest.score, here.black + rest.black, here.white + rest.white)
  }

  /** Rows `row`..7. */
  function TallyFromRow(b: Board, row: int): (t: Tally)
    requires 0 <= row <= 8
    ensures t.black + t.white <= 64 - 8 * row
    ensures -2464 * (8 - row) <= t.score <= 2464 * (8 - row)
    decreases 8 - row
  {
    if row == 8 then Tally(0, 0, 0)
    else
      var here := TallyInRow(b, row, 0);
      var rest := TallyFromRow(b, row + 1);
      Tally(here.score + rest.score, here.black + rest.black, here.white + rest.white)
  }

  function TallyBoard(b: Board): Tally
  {
    TallyFromRow(b, 0)
  }

  lemma {:induction false} TallyInRowCounts(b: Board, row: int, col: int)
    requires 0 <= row < 8 && 0 <= col <= 8
    ensures TallyInRow(b, row, col).black == CountInRow(b, Black, row, col)
    ensures TallyInRow(b, row, col).white == CountInRow(b, White, row, col)
    decreases 8 - col
  {
    if col < 8 {
      TallyInRowCounts(b, row, col + 1);
    }
  }

  lemma {:induction false} TallyFromRowCounts(b: Board, row: int)
    requires 0 <= row <= 8
    ensures TallyFromRow(b, row).black == CountFromRow(b, Black, row)
    ensures TallyFromRow(b, row).white == CountFromRow(b, White, row)
    decreases 8 - row
  {
    if row < 8 {
      TallyInRowCounts(b, row, 0);
      TallyFromRowCounts(b, row + 1);
    }
  }

  /** The evaluator's piece counters agree with an independent count of the board. */
  lemma TallyCounts(b: Board)
    ensures TallyBoard(b).black == CountPieces(b, Black)
    ensures TallyBoard(b).white == CountPieces(b, White)
  {
    TallyFromRowCounts(b, 0);
  }

  // ---------------------------------------------------------------------------
  // evaluateBoard
  // ---------------------------------------------------------------------------

  /** The endgame term: with at most 8 pieces left, 50 per piece of material lead. */
  function EndgameTerm(black: int, white: int): int
  {
    if black + white <= ENDGAME_PIECES then (black - white) * ENDGAME_WEIGHT else 0
  }

  /** The mobility term: 5 per move of lead in the number of valid moves. */
  function Mobility(blackMoves: int, whiteMoves: int): int
  {
    (blackMoves - whiteMoves) * MOBILITY_WEIGHT
  }

  /** The final combination of `evaluateBoard`, given the tally and the two move counts. */
  function Combine(t: Tally, blackMoves: int, whiteMoves: int): int
  {
    var score := t.score + Mobility(blackMoves, whiteMoves) + EndgameTerm(t.black, t.white);
    if t.black == 0 then LOSS
    else if t.white == 0 then WIN
    else if blackMoves == 0 then LOSS
    else if whiteMoves == 0 then WIN
    else score
  }

  /** `evaluateBoard`. The score always lies strictly between the search's sentinels -100000
      and 100000, so a searched value can never be confused with them. */
  function Evaluate(b: Board): (r: int)
    ensures -100000 < r < 100000
  {
    var t := TallyBoard(b);
    var blackMoves := |AllValidMoves(b, Black)|;
    var whiteMoves := |AllValidMoves(b, White)|;
    CombineBound(t, blackMoves, whiteMoves);
    Combine(t, blackMoves, whiteMoves)
  }

  lemma CombineBound(t: Tally, blackMoves: int, whiteMoves: int)
    requires t.black + t.white <= 64 && -19712 <= t.score <= 19712
    requires 0 <= blackMoves <= 2048 && 0 <= whiteMoves <= 2048
    ensures -100000 < Combine(t, blackMoves, whiteMoves) < 100000
  {
    assert -10240 <= Mobility(blackMoves, whiteMoves) <= 10240;
    assert -400 <= EndgameTerm(t.black, t.white) <= 400;
  }

  /** The four terminal verdicts, checked in order: Black has no pieces, White has no pieces,
      Black has no valid move, White has no valid move. */
  lemma EvaluateTerminal(b: Board)
    ensures CountPieces(b, Black) == 0 ==> Evaluate(b) == LOSS
    ensures CountPieces(b, Black) > 0 && CountPieces(b, White) == 0 ==> Evaluate(b) == WIN
    ensures CountPieces(b, Black) > 0 && CountPieces(b, White) > 0 && (forall m: Move :: !IsValidMove(b, m, Black))
            ==> Evaluate(b) == LOSS
    ensures (&& CountPieces(b, Black) > 0 && CountPieces(b, White) > 0
             && (exists m: Move :: IsValidMove(b, m, Black))
             && (forall m: Move :: !IsValidMove(b, m, White))) ==> Evaluate(b) == WIN
  {
    TallyCounts(b);
    NoMovesIffStuck(b, Black);
    NoMovesIffStuck(b, White);
  }

  /** Away from the terminal cases the score is the piece tally, plus 5 per move of mobility lead,
      plus 50 per piece of material lead once at most 8 pieces remain. */
  lemma EvaluateOngoing(b: Board)
    requires CountPieces(b, Black) > 0 && CountPieces(b, White) > 0
    requires exists m: Move :: IsValidMove(b, m, Black)
    requires exists m: Move :: IsValidMove(b, m, White)
    ensures Evaluate(b) == TallyBoard(b).score
              + Mobility(|AllValidMoves(b, Black)|, |AllValidMoves(b, White)|)
              + EndgameTerm(CountPieces(b, Black), CountPieces(b, White))
  {
    var t := TallyBoard(b);
    var blackMoves := |AllValidMoves(b, Black)|;
    var whiteMoves := |AllValidMoves(b, White)|;
    TallyCounts(b);
    NoMovesIffStuck(b, Black);
    NoMovesIffStuck(b, White);
    assert t.black > 0 && t.white > 0 && blackMoves > 0 && whiteMoves > 0;
    assert Evaluate(b) == Combine(t, blackMoves, whiteMoves);
    CombineOngoing(t, blackMoves, whiteMoves);
  }

  lemma CombineOngoing(t: Tally, blackMoves: int, whiteMoves: int)
    requires t.black > 0 && t.white > 0 && blackMoves > 0 && whiteMoves > 0
    ensures Combine(t, blackMoves, whiteMoves) == t.score + Mobility(blackMoves, whiteMoves) + EndgameTerm(t.black, t.white)
  {
  }

  // ---------------------------------------------------------------------------
  // The back-row bonus on reachable boards
  // ---------------------------------------------------------------------------

  /** No man stands on its own promotion row. */
  ghost predicate NoManOnPromotionRow(b: Board)
  {
    forall p: Position :: p.IsValid() && Occupied(b, p) && PieceAt(b, p).value.kind == Man
      ==> p.row != PromotionRow(PieceAt(b, p).value.color)
  }

  lemma InitialHasNoManOnPromotionRow(b: Board)
    requires IsInitialPosition(b)
    ensures NoManOnPromotionRow(b)
  {
    forall p: Position | p.IsValid() && Occupied(b, p) && PieceAt(b, p).value.kind == Man
      ensures p.row != PromotionRow(PieceAt(b, p).value.color)
    {
      assert PieceAt(b, p) == InitialPiece(p.row, p.col);
    }
  }

  /** `applyMove` promotes a man that reaches its promotion row, so none is ever left there. */
  lemma ApplyMoveKeepsNoManOnPromotionRow(b: Board, m: Move)
    requires CanApply(b, m) && NoManOnPromotionRow(b)
    ensures NoManOnPromotionRow(ApplyMove(b, m))
  {
    var r := ApplyMove(b, m);
    forall p: Position | p.IsValid() && Occupied(r, p) && PieceAt(r, p).value.kind == Man
      ensures p.row != PromotionRow(PieceAt(r, p).value.color)
    {
      if p != m.to && p != m.from && p !in m.captured {
        assert TileAt(r, p) == TileAt(b, p);
      }
    }
  }

  /** Hence on every board reachable from the start position the back-row bonus is never paid. */
  lemma BackRowBonusNeverPaid(b: Board, p: Position)
    requires NoManOnPromotionRow(b) && p.IsValid() && Occupied(b, p)
    ensures BackRowTerm(PieceAt(b, p).value, p.row) == 0
  {
    BackRowIsPromotionRow(PieceAt(b, p).value, p.row);
  }
}
