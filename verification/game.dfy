/** The turn state machine of `Game`: the start of a game, one turn (`nextTurn`), and the
    game-over and winner queries. The game keeps its own side to move, separate from the
    board's `currentPlayer` field. */
module Games {
  import opened Wrappers
  import opened Pieces
  import opened Moves
  import opened Boards
  import opened Rules
  import opened MoveGen
  import opened Evaluation

  /** The state of a game: the board, the side whose turn it is, and whether the game has ended. */
  datatype Game = Game(board: Board, currentPlayer: Color, gameOver: bool)

  /** `Game::start`: set up the standard layout, White moves first, the game is running. */
  method Start(g: Game) returns (r: Game)
    ensures IsInitialPosition(r.board)
    ensures r.currentPlayer == White && !r.gameOver
  {
    var board := Initialize(g.board);
    r := Game(board, White, false);
  }

  /** Whether the side that just played `m` keeps the turn: `m` was a capture and the capture
      search from the landing square, for the piece now standing there, finds another capture. */
  function KeepsTurn(b: Board, m: Move, color: Color): (r: bool)
    requires CanApply(b, m)
    ensures r ==> m.IsCapture()
  {
    var next := ApplyMove(b, m);
    m.IsCapture() && |PieceCaptures(next, m.to, color, PieceAt(next, m.to).value.kind)| > 0
  }

  /** `Game::nextTurn`. With no move available the game ends and nothing else changes;
      otherwise the first generated move is played and the turn passes to the opponent unless
      the moving piece can capture again. The flag is not consulted first, so a finished game
      still plays on when called. */
  function NextTurn(g: Game): (r: Game)
    ensures g.gameOver ==> r.gameOver
    ensures r.currentPlayer == g.currentPlayer || r.currentPlayer == Opponent(g.currentPlayer)
  {
    var moves := AllValidMoves(g.board, g.currentPlayer);
    if |moves| == 0 then
      g.(gameOver := true)
    else
      var m := moves[0];
      var next := ApplyMove(g.board, m);
      if KeepsTurn(g.board, m, g.currentPlayer) then g.(board := next)
      else g.(board := next, currentPlayer := Opponent(g.currentPlayer))
  }

  /** `Game::isGameOver`. */
  function IsGameOver(g: Game): bool
  {
    g.gameOver
  }

  /** `Game::getWinner`: nobody while the game runs, afterwards the side not to move. */
  function GetWinner(g: Game): (r: Option<Color>)
    ensures r.None? <==> !IsGameOver(g)
    ensures r.Some? ==> r.value != g.currentPlayer
  {
    if !g.gameOver then None else Some(Opponent(g.currentPlayer))
  }

  // ---------------------------------------------------------------------------
  // Properties of a turn
  // ---------------------------------------------------------------------------

  /** A side with no valid move ends the game; board and side to move stay as they were. */
  lemma StuckEndsGame(g: Game)
    requires forall m: Move :: !IsValidMove(g.board, m, g.currentPlayer)
    ensures NextTurn(g) == g.(gameOver := true)
  {
    NoMovesIffStuck(g.board, g.currentPlayer);
  }

  /** A turn ends the game exactly when the game was over already or the side to move is stuck. */
  lemma GameOverIffStuck(g: Game)
    ensures IsGameOver(NextTurn(g))
        <==> IsGameOver(g) || forall m: Move :: !IsValidMove(g.board, m, g.currentPlayer)
  {
    NoMovesIffStuck(g.board, g.currentPlayer);
  }

  /** The side left stuck loses: after its turn the winner is its opponent. */
  lemma StuckSideLoses(g: Game)
    requires forall m: Move :: !IsValidMove(g.board, m, g.currentPlayer)
    ensures GetWinner(NextTurn(g)) == Some(Opponent(g.currentPlayer))
  {
    StuckEndsGame(g);
  }

  /** A side that can move plays the first generated move: a valid move of its own, a capture
      whenever one is on offer, and the flag is untouched. */
  lemma PlaysFirstMove(g: Game)
    requires exists m: Move :: IsValidMove(g.board, m, g.currentPlayer)
    ensures var moves := AllValidMoves(g.board, g.currentPlayer);
      && |moves| > 0
      && IsValidMove(g.board, moves[0], g.currentPlayer)
      && (CanCaptureAny(g.board, g.currentPlayer) ==> moves[0].IsCapture())
      && NextTurn(g).board == ApplyMove(g.board, moves[0])
      && NextTurn(g).gameOver == g.gameOver
  {
    var moves := AllValidMoves(g.board, g.currentPlayer);
    NoMovesIffStuck(g.board, g.currentPlayer);
    MandatoryCapture(g.board, g.currentPlayer);
    AllValidMovesSound(g.board, g.currentPlayer);
    ElementIsMember(moves, 0);
  }

  /** The capture search from the landing square finds something exactly when the piece that
      just landed there has another valid capture. */
  lemma KeepsTurnIffAnotherCapture(b: Board, m: Move, color: Color)
    requires CanApply(b, m)
    ensures KeepsTurn(b, m, color)
        <==> m.IsCapture()
             && exists c: Move :: c.from == m.to && IsValidMove(ApplyMove(b, m), c, color) && c.IsCapture()
  {
    var next := ApplyMove(b, m);
    PieceCapturesIffCapture(next, m.to, color, PieceAt(next, m.to).value.kind);
  }

  /** The continuation rule: after a move the same side moves again exactly when that move was a
      capture and the piece on its landing square has another valid capture; in every other case
      the turn passes to the opponent. */
  lemma ContinuesIffAnotherCapture(g: Game)
    requires |AllValidMoves(g.board, g.currentPlayer)| > 0
    ensures var m := AllValidMoves(g.board, g.currentPlayer)[0];
      && (NextTurn(g).currentPlayer == g.currentPlayer
          <==> m.IsCapture()
               && exists c: Move :: c.from == m.to && IsValidMove(ApplyMove(g.board, m), c, g.currentPlayer) && c.IsCapture())
      && (NextTurn(g).currentPlayer != g.currentPlayer ==> NextTurn(g).currentPlayer == Opponent(g.currentPlayer))
  {
    var moves := AllValidMoves(g.board, g.currentPlayer);
    ElementIsMember(moves, 0);
    var m := moves[0];
    KeepsTurnIffAnotherCapture(g.board, m, g.currentPlayer);
    assert NextTurn(g).currentPlayer == g.currentPlayer <==> KeepsTurn(g.board, m, g.currentPlayer);
  }

  /** A finished game stays finished. */
  lemma GameOverIsFinal(g: Game)
    requires IsGameOver(g)
    ensures IsGameOver(NextTurn(g)) && GetWinner(NextTurn(g)).Some?
  {
  }

  /** No man ever stands on its own promotion row in a game that started normally: the start
      position has none and no turn creates one. */
  lemma NextTurnKeepsNoManOnPromotionRow(g: Game)
    requires NoManOnPromotionRow(g.board)
    ensures NoManOnPromotionRow(NextTurn(g).board)
  {
    var moves := AllValidMoves(g.board, g.currentPlayer);
    if |moves| > 0 {
      ElementIsMember(moves, 0);
      ApplyMoveKeepsNoManOnPromotionRow(g.board, moves[0]);
    }
  }

  /** `f` applied `n` times to `g`. */
  function Iterate(f: Game -> Game, g: Game, n: nat): Game
    decreases n
  {
    if n == 0 then g else f(Iterate(f, g, n - 1))
  }

  /** A property that every step preserves holds after any number of steps. */
  lemma {:induction false} IterateKeeps(f: Game -> Game, inv: Game -> bool, g: Game, n: nat)
    requires inv(g)
    requires forall h :: inv(h) ==> inv(f(h))
    ensures inv(Iterate(f, g, n))
    decreases n
  {
    if n > 0 {
      IterateKeeps(f, inv, g, n - 1);
    }
  }

  /** The state reached from `g` after `n` turns. */
  function Play(g: Game, n: nat): Game
  {
    Iterate(NextTurn, g, n)
  }

  /** No turn sequence puts a man on its own promotion row. */
  lemma PlayKeepsNoManOnPromotionRow(g: Game, n: nat)
    requires NoManOnPromotionRow(g.board)
    ensures NoManOnPromotionRow(Play(g, n).board)
  {
    forall h: Game | NoManOnPromotionRow(h.board)
      ensures NoManOnPromotionRow(NextTurn(h).board)
    {
      NextTurnKeepsNoManOnPromotionRow(h);
    }
    IterateKeeps(NextTurn, (h: Game) => NoManOnPromotionRow(h.board), g, n);
  }

  /** In any game begun with `start`, however many turns have been played, the back-row bonus of
      the evaluator is paid for no piece. */
  lemma PlayedGamesPayNoBackRowBonus(g: Game, n: nat, p: Position)
    requires IsInitialPosition(g.board)
    requires p.IsValid() && Occupied(Play(g, n).board, p)
    ensures BackRowTerm(PieceAt(Play(g, n).board, p).value, p.row) == 0
  {
    InitialHasNoManOnPromotionRow(g.board);
    PlayKeepsNoManOnPromotionRow(g, n);
    BackRowBonusNeverPaid(Play(g, n).board, p);
  }
}
