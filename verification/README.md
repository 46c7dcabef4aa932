# Checkers rules engine and alpha-beta search, in Dafny

This project models the core of a small C++ checkers (draughts) program and proves properties
of the model. The core has five parts:

- the value types `Position`, `Move`, `Piece` and `Tile`;
- the 8x8 `Board`:
  - the start position (`initialize`);
  - single-move legality (`isValidMove`);
  - the move generator (`getAllValidMoves` with the recursive `findMultiCaptures`);
  - the board update (`applyMove`);
- the static evaluator `evaluateBoard`;
- the alpha-beta `minimax` and the root chooser `findBestMove`;
- the turn state machine of `Game` (`start`, `nextTurn`, `isGameOver`, `getWinner`).

Everything is immutable. A board is a sequence of 64 tiles in row-major order plus the
`currentPlayer` field. Each tile holds an optional piece and the highlight flag. `applyMove`
returns a new board, and the search explores the children of a position as new boards, so it
never changes its argument.

Files, one module each:

| file | module | models |
|---|---|---|
| wrappers.dfy | Wrappers | `Option`, and `Result` in place of `std::runtime_error` |
| pieces.dfy | Pieces | `Piece`, colours, ranks, promotion |
| tiles.dfy | Tiles | `Tile` |
| moves.dfy | Moves | `Position`, `Move` |
| board.dfy | Boards | board layout, `initialize`, `applyMove`, piece counts |
| rules.dfy | Rules | `isValidMove`, with a man rule and a king rule proved about it |
| movegen.dfy | MoveGen | `findMultiCaptures`, `getAllValidMoves`, soundness, completeness, mandatory capture |
| evaluation.dfy | Evaluation | `evaluateBoard` |
| search.dfy | Search | `minimax`, plain minimax as a reference, alpha-beta correctness, `findBestMove` |
| game.dfy | Games | `Game::start`, `nextTurn`, `isGameOver`, `getWinner` |

Facts about the code as written. Each claim followed by a member name in parentheses is proved by
that member; the other sentences are remarks that no lemma states:

- **Capture chains never extend.** `findMultiCaptures` recurses from each landing square. Each
  extension is checked with `isValidMove(Move(dest, …))`, and that call needs a piece on `dest`.
  The landing square is empty on the unchanged board, so no extension is ever found. Every
  generated capture therefore jumps exactly one enemy (`MoveGen.CapturesAreSingleJumps`).
  `Game::nextTurn` re-queries the capture search from the landing square after applying the move
  and keeps the side to move when it finds another capture (`Games.ContinuesIffAnotherCapture`).
  The next turn, however, plays the first generated move of that side, which need not belong to
  the piece that just landed. The graphical front end has its own same-piece continuation, which
  is left out.
- **Men never capture backwards.** The capture search tries all four directions for a man, but
  `isValidMove` only accepts a jump of two rows forward (`Rules.ManNeverCapturesBackward`).
- **The advancement term is largest on each side's own starting rows.** It is `(7-row)*3` for
  Black and `row*3` for White (`Evaluation.AdvancementRewardsStayingBack`).
- **The back-row bonus is never paid.** It is given to a Black man on row 7 and a White man on
  row 0. Those are exactly the rows where `applyMove` promotes, so the bonus applies to no piece
  of any game played from the start position (`Games.PlayedGamesPayNoBackRowBonus`).
- **The winner is the opponent of the side that got stuck.** The source's comment on
  `getWinner` says the winner is "the one who still has moves". The code returns the opponent of
  the side to move without asking whether that opponent can move (`Games.GetWinner`,
  `Games.StuckSideLoses`). The model follows the code. A position where both sides are stuck
  would therefore name a winner without moves; no such position is exhibited in the proofs.

## Model

| member | source | states |
|---|---|---|
| Pieces.NewPiece | src/Piece.cpp:3 | the constructed piece has the given colour and rank |
| Pieces.DefaultRankIsMan | include/Piece.hpp:19 | a piece built without a rank is a man, not a king |
| Pieces.MakeKing | src/Piece.cpp:9-11 | promotion yields a king of the same colour and leaves a king unchanged |
| Pieces.MakeKingIdempotent | src/Piece.cpp:9-11 | promoting twice equals promoting once |
| Pieces.IsKing | src/Piece.cpp:5-7 | the rank test used by promotion and by the king branches; no contract of its own, `Pieces.MakeKing` states what makes it true |
| Pieces.Opponent | src/Board.cpp:295 | the other side differs from the given one |
| Pieces.OpponentInvolutive | src/Game.cpp:36 | switching sides twice returns the original side |
| Tiles.DefaultTile | src/Tile.cpp:3 | a fresh tile is empty and not highlighted |
| Tiles.Tile.HasPiece | src/Tile.cpp:15 | whether the optional holds a piece; `Tiles.Tile.GetPiece` states that a piece is returned exactly when it does |
| Tiles.Tile.GetPiece | src/Tile.cpp:17-19 | a piece is returned exactly when the tile has one |
| Tiles.Tile.SetPiece | src/Tile.cpp:25 | afterwards the tile holds exactly the given piece; the highlight flag is kept |
| Tiles.Tile.RemovePiece | src/Tile.cpp:27 | afterwards the tile is empty; the highlight flag is kept |
| Tiles.RemovePieceIdempotent | src/Tile.cpp:27 | removing twice equals removing once |
| Tiles.Tile.SetHighlighted | src/Tile.cpp:13 | only the flag changes and the piece stays |
| Moves.SamePosition | include/Move.hpp:13-15 | positions compare equal exactly when row and column both agree |
| Moves.SamePositionReflexive | include/Move.hpp:13-15 | every position equals itself |
| Moves.SamePositionSymmetric | include/Move.hpp:13-15 | equality does not depend on argument order |
| Moves.Position.IsValid | include/Move.hpp:17-19 | a position is on the board exactly when 0 <= row < 8 and 0 <= col < 8; no contract of its own, the body is the bound |
| Moves.Move.IsCapture | src/Move.cpp:21-23 | a move is a capture when its capture list is non-empty; `Moves.Move.AddCaptured` states that appending a square makes it one |
| Moves.NewMove | src/Move.cpp:3 | a new move has the given from and to and captures nothing |
| Moves.Move.AddCaptured | src/Move.cpp:13-15 | one square is appended at the end; earlier entries, from and to are kept; the move is now a capture |
| Boards.NewBoard | src/Board.cpp:6 | a default-constructed board has every square empty and White to move |
| Boards.Initialize | src/Board.cpp:9-31 | every square holds what the standard layout puts there; the highlight flags and side to move are unchanged |
| Boards.InitialPositionCounts | src/Board.cpp:17-30 | the start position has 12 black and 12 white pieces |
| Boards.InitialPositionLayout | src/Board.cpp:17-30 | rows 3 and 4 are empty; every piece is a man on a square with odd row+col |
| Boards.ApplyMove | src/Board.cpp:275-296 | the mover leaves its square; captured squares become empty; the landing piece keeps its colour; it is a king iff it was one or it reached its far row; every other tile is unchanged; the side to move toggles |
| Rules.IsValidMove | src/Board.cpp:48-66 | a valid move has both squares on the board, its own piece on from, an empty to, and from different from to |
| Rules.ManMoveRule | src/Board.cpp:71-90 | a man's move is valid iff it is one forward diagonal step, or, with a capture list, two forward diagonal steps over an enemy |
| Rules.ManNeverCapturesBackward | src/Board.cpp:81 | a man's jump towards its own side is never valid |
| Rules.KingMoveRule | src/Board.cpp:91-118 | a king's move is valid iff it goes along a diagonal with only empty squares between for a step, or exactly one enemy and nothing else between for a capture |
| Rules.KingScan | src/Board.cpp:97-112 | the walk along the diagonal; no contract of its own, its outcomes are stated by `Rules.ScanOutcome` |
| Rules.ScanOutcome | src/Board.cpp:97-112 | the walk ends with the count it started with only over empty squares, one higher only over exactly one enemy and otherwise empty squares, and never counts past one |
| Rules.ValidityIgnoresCapturedContents | src/Board.cpp:73 | validity depends only on whether the capture list is empty, not on what it holds |
| MoveGen.FindMultiCaptures | src/Board.cpp:174-267 | every emitted move starts where the chain started, is a capture, and extends the chain's capture list |
| MoveGen.ChainAll | src/Board.cpp:203-254 | the recursive calls, one per jump found by the man branch (203-214) or the king branch (242-254): every move they emit extends the chain by at least one captured square |
| MoveGen.PieceCaptures | src/Board.cpp:142-144 | the search from a piece's square, started with an empty chain, emits captures that start on that square, at most 32 of them |
| MoveGen.CapturesAreSingleJumps | src/Board.cpp:174-267 | the recursive capture search returns one single-jump move per jump found from the start square, and never extends a chain |
| MoveGen.PieceCapturesSound | src/Board.cpp:198-230 | every capture found is valid and jumps exactly one enemy square |
| MoveGen.PieceCapturesIffCapture | src/Board.cpp:186-266 | the capture search from a square finds something iff the piece there has a valid capture |
| MoveGen.AllValidMoves | src/Board.cpp:124-172 | every generated move can be applied; the generated moves are all captures or all non-captures |
| MoveGen.AllValidMovesSound | src/Board.cpp:153-163 | every generated move is valid for the side, starts on its own piece and lands on an empty square; a generated capture jumps exactly one enemy |
| MoveGen.CaptureComplete | src/Board.cpp:144-146 | every valid capture is generated, as a capture with the same start and landing square |
| MoveGen.StepComplete | src/Board.cpp:148-166 | with no capture available, every valid non-capturing move is generated |
| MoveGen.MandatoryCapture | src/Board.cpp:171 | when a capture exists, only captures are generated and there is at least one; otherwise exactly the valid non-captures are generated |
| MoveGen.NoMovesIffStuck | src/Board.cpp:124-172 | the generator is empty iff the side has no valid move |
| Evaluation.PositionBonus | include/AI.hpp:16-25 | the centre-control term lies between 0 and 8 |
| Evaluation.PieceScore | include/AI.hpp:42-71 | the value of one piece: a man is worth 90 to 134 and a king 300 to 308 |
| Evaluation.KingOutweighsMan | include/AI.hpp:42-71 | any king scores more than 150 above any man |
| Evaluation.KingScoreIsPositional | include/AI.hpp:42-71 | a king scores its base value plus its centre term, the same for either colour |
| Evaluation.AdvancementRewardsStayingBack | include/AI.hpp:48-55 | a forward step lowers a man's advancement term by 3; it is 0 on the promotion row and 21 on the opposite row |
| Evaluation.BackRowIsPromotionRow | include/AI.hpp:64-69 | the back-row bonus is paid exactly to a man standing on its own promotion row |
| Evaluation.Combine | include/AI.hpp:86-105 | the final combination; no contract of its own, `Evaluation.EvaluateTerminal` and `Evaluation.EvaluateOngoing` state its cases |
| Evaluation.TallyCounts | include/AI.hpp:34-84 | the evaluator's piece counters equal the number of pieces of each colour |
| Evaluation.Evaluate | include/AI.hpp:28-106 | every score lies strictly between the search sentinels -100000 and 100000 |
| Evaluation.EvaluateTerminal | include/AI.hpp:99-103 | in order: no black piece scores -10000, else no white piece 10000, else Black stuck -10000, else White stuck 10000 |
| Evaluation.EvaluateOngoing | include/AI.hpp:86-105 | otherwise the score is the piece tally plus 5 times the mobility difference plus 50 times the material difference when at most 8 pieces remain |
| Evaluation.ApplyMoveKeepsNoManOnPromotionRow | src/Board.cpp:288-292 | applying a move never leaves a man on its own promotion row |
| Evaluation.BackRowBonusNeverPaid | include/AI.hpp:64-69 | on a board with no man on its promotion row the back-row bonus is zero for every piece |
| Search.Player | include/AI.hpp:110 | the maximising side is Black and the minimising side is White |
| Search.Children | include/AI.hpp:123-126 | there is one child board per generated move |
| Search.MinimaxLeaf | include/AI.hpp:114-116 | at depth 0, or when the side to move has no valid move, the search returns the static score |
| Search.Minimax | include/AI.hpp:109-144 | the pruned search always returns a value strictly between the sentinels |
| Search.MaxLoop | include/AI.hpp:121-131 | the maximising loop returns at least its running maximum, below the upper sentinel, and above the lower sentinel once a child exists |
| Search.MinLoop | include/AI.hpp:132-143 | the minimising loop returns at most its running minimum, above the lower sentinel, and below the upper sentinel once a child exists |
| Search.AlphaBetaWindow | include/AI.hpp:121-143 | compared with plain minimax m for a window alpha < beta: m <= alpha gives a result <= alpha, m >= beta gives a result >= beta, and otherwise the result is exactly m |
| Search.AlphaBetaClamped | include/AI.hpp:109-144 | clamped to the window, the pruned and plain values agree |
| Search.MaxLoopClamped | include/AI.hpp:121-131 | the maximising loop with its cut-off agrees with the plain maximum, once clamped to the window |
| Search.MinLoopClamped | include/AI.hpp:132-143 | the minimising loop with its cut-off agrees with the plain minimum, once clamped to the window |
| Search.RootSearchIsExact | include/AI.hpp:157 | with the sentinel window the pruned search returns the exact minimax value |
| Search.SearchMoveIsRootValue | include/AI.hpp:155-157 | the score of a root move is its exact minimax value with White to reply, and never the sentinel |
| Search.FirstBest | include/AI.hpp:151-162 | the selection loop ends on the first strictly greatest value |
| Search.ScoreMoves | include/AI.hpp:154-157 | the scores are the exact minimax values of the moves, in order |
| Search.ScoreMove | include/AI.hpp:155-157 | the score of one root move, searched on a copy of the board, is its root value |
| Search.FindBestMove | include/AI.hpp:147-164 | fails iff Black has no valid move; otherwise returns the earliest generated move with the strictly greatest minimax value; with one move, that move |
| Games.Start | src/Game.cpp:3-7 | the board is in the start position, White is to move, the game is running |
| Games.NextTurn | src/Game.cpp:9-38 | a finished game stays finished; the side to move either stays or becomes the opponent |
| Games.KeepsTurn | src/Game.cpp:19-33 | the side keeps the turn only after a capture; `Games.KeepsTurnIffAnotherCapture` states both directions |
| Games.IsGameOver | src/Game.cpp:40-42 | reports the flag; `Games.GameOverIffStuck` states when a turn sets it |
| Games.StuckEndsGame | src/Game.cpp:10-14 | a side with no valid move ends the game and leaves board and side to move unchanged |
| Games.GameOverIffStuck | src/Game.cpp:9-14 | `nextTurn` sets the flag that `isGameOver` reports: after a turn the game is over iff it already was or the side to move was stuck |
| Games.PlaysFirstMove | src/Game.cpp:16-17 | a side that can move plays the first generated move, which is valid and a capture whenever one exists |
| Games.KeepsTurnIffAnotherCapture | src/Game.cpp:19-33 | the capture query from the landing square succeeds iff the move was a capture and the landed piece has another valid capture |
| Games.ContinuesIffAnotherCapture | src/Game.cpp:19-36 | the same side moves again iff its move was a capture and the landed piece can capture again; otherwise the opponent moves |
| Games.GetWinner | src/Game.cpp:44-48 | no winner while the game runs; afterwards the winner is not the side to move |
| Games.StuckSideLoses | src/Game.cpp:44-48 | when the side to move is stuck, the next turn makes its opponent the winner |
| Games.GameOverIsFinal | src/Game.cpp:9-14 | a finished game is still finished after another call and has a winner |
| Games.PlayKeepsNoManOnPromotionRow | src/Game.cpp:16-17 | no sequence of turns puts a man on its own promotion row |
| Games.PlayedGamesPayNoBackRowBonus | include/AI.hpp:64-69 | in every game played from the start position the back-row bonus is zero for every piece |

## Left out

- The graphical front end (viz/viz.cpp) and the timing harness (src/Measure.cpp) are not part of this model. They are rendering, input, clocks, files and floating point, and they only drive the core.
- The same-piece capture continuation of the graphical front end (viz/viz.cpp:167-180 and 323-336) is not part of this model; only the continuation of `Game::nextTurn` is.
- Boards.ApplyMove: requires `CanApply`: `from`, `to` and every captured square on the board, a piece on `from`, `from != to` and `to` not among the captured squares. The source checks none of these except the piece on `from`. An off-board square indexes the tile array out of range (src/Board.cpp:276-277, 284-285). An empty `from` is skipped at src/Board.cpp:279; if `to` is empty too, src/Board.cpp:288 dereferences a null piece pointer. If `to` holds a piece the behaviour is defined (the captured squares are cleared, that piece may be promoted and the side is toggled), but every caller passes a generated move, which starts on a piece, so `CanApply` excludes that case and the model does not describe it. `from == to` and `to` among the captured squares leave `to` empty, and src/Board.cpp:288 dereferences a null pointer.
- Logging to `std::cout` and the commented-out debug output are dropped.
- The `row` and `col` fields of `Tile` and their getters are dropped. `Board` never sets them, so they stay 0. `getType`, `getColor`, `getFrom`, `getTo` and `getCaptured` are the datatype fields.
- The `blackKings` and `whiteKings` counters of `evaluateBoard` are dropped. They are counted but never read.
- Evaluation.Evaluate: the mobility term is a mathematical integer difference. In the source it is a `size_t` subtraction that can wrap. Since the sum is converted back to `int`, the result is the same for any board, but that conversion is not modelled.
- Search.FindBestMove: requires `depth >= 1`. With a smaller depth the source's `minimax` never reaches depth 0. `Minimax` likewise takes a natural-number depth.
- `std::runtime_error("No moves for AI")` becomes a `Failure` result of `FindBestMove`.
- Termination of the capture search is measured by the set of board squares not yet captured, not by 64 minus the number of captured squares. These are the same idea, since captured squares are distinct.
- `findBestMove` scores all root moves first and then picks the first strictly greatest score. The source picks while it scores. The result is the same because scoring is pure.
- Pruning shows up only through the value it returns. The model does not count the positions visited.
- `nextTurn` reads the type of the piece on the landing square through a pointer. A generated move always leaves a piece there, so the null case cannot arise and is not modelled.
