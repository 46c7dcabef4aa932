/**
 * The 8x8 board: 64 tiles in row-major order plus the side the board believes is to move.
 * Only the dark squares, where row + column is odd, are ever populated.
 */
module Boards {
  import opened Wrappers
  import opened Pieces
  import opened Tiles
  import opened Moves

  const SIZE: int := 8

  type Grid = s: seq<Tile> | |s| == 64 witness seq(64, _ => DefaultTile())

  datatype Board = Board(tiles: Grid, currentPlayer: Color)

  /** A default-constructed board: 64 empty, unhighlighted tiles, White to move. */
  function NewBoard(): (b: Board)
    ensures forall p: Position :: p.IsValid() ==> !Occupied(b, p)
    ensures b.currentPlayer == White
  {
    Board(seq(64, _ => DefaultTile()), White)
  }

  // ---------------------------------------------------------------------------
  // Square access
  // ---------------------------------------------------------------------------

  function Index(p: Position): (i: nat)
    requires p.IsValid()
    ensures i < 64
  {
    p.row * SIZE + p.col
  }

  /** Distinct squares live in distinct slots of the tile sequence. */
  lemma IndexInjective(p: Position, q: Position)
    requires p.IsValid() && q.IsValid()
    ensures Index(p) == Index(q) <==> p == q
  {
  }

  /** The square stored in slot `i`. */
  function PositionOf(i: int): (p: Position)
    requires 0 <= i < 64
    ensures p.IsValid() && Index(p) == i
  {
    Position(i / SIZE, i % SIZE)
  }

  function TileAt(b: Board, p: Position): Tile
    requires p.IsValid()
  {
    b.tiles[Index(p)]
  }

  function PieceAt(b: Board, p: Position): Option<Piece>
    requires p.IsValid()
  {
    TileAt(b, p).GetPiece()
  }

  predicate Occupied(b: Board, p: Position)
    requires p.IsValid()
  {
    TileAt(b, p).HasPiece()
  }

  /** A piece of colour `color` stands on `p`. */
  predicate HasPieceOf(b: Board, p: Position, color: Color)
    requires p.IsValid()
  {
    Occupied(b, p) && PieceAt(b, p).value.color == color
  }

  /** A piece of the side opposing `color` stands on `p`. */
  predicate IsEnemy(b: Board, p: Position, color: Color)
    requires p.IsValid()
  {
    Occupied(b, p) && PieceAt(b, p).value.color != color
  }

  /** Replaces the tile on `p`; every other tile and the side to move stay as they were. */
  function WithTile(b: Board, p: Position, t: Tile): (r: Board)
    requires p.IsValid()
    ensures TileAt(r, p) == t
    ensures forall q: Position :: q.IsValid() && q != p ==> TileAt(r, q) == TileAt(b, q)
    ensures r.currentPlayer == b.currentPlayer
  {
    forall q: Position | q.IsValid() && q != p
      ensures Index(q) != Index(p)
    {
      IndexInjective(p, q);
    }
    b.(tiles := b.tiles[Index(p) := t])
  }

  // ---------------------------------------------------------------------------
  // Directions
  // ---------------------------------------------------------------------------

  /** The four diagonal directions in the order the move generator tries them:
      (-1,-1), (-1,+1), (+1,-1), (+1,+1) as (row step, column step). */
  datatype Direction = UpLeft | UpRight | DownLeft | DownRight

  const Directions: seq<Direction> := [UpLeft, UpRight, DownLeft, DownRight]

  /** The square `k` steps from `p` along `d`. */
  function Shift(p: Position, d: Direction, k: int): Position
  {
    match d
    case UpLeft => Position(p.row - k, p.col - k)
    case UpRight => Position(p.row - k, p.col + k)
    case DownLeft => Position(p.row + k, p.col - k)
    case DownRight => Position(p.row + k, p.col + k)
  }

  /** Squares between two on-board squares of a diagonal are on the board too. */
  lemma ShiftBetweenValid(p: Position, d: Direction, n: int, k: int)
    requires p.IsValid() && Shift(p, d, n).IsValid()
    requires 0 <= k <= n
    ensures Shift(p, d, k).IsValid()
  {
  }

  /** The direction whose row and column steps have the signs of the given differences
      (a zero difference counts as negative, as in the source). */
  function DirOf(rowDiff: int, colDiff: int): (d: Direction)
  {
    if rowDiff > 0 then (if colDiff > 0 then DownRight else DownLeft)
    else (if colDiff > 0 then UpRight else UpLeft)
  }

  function Abs(x: int): nat
  {
    if x < 0 then -x else x
  }

  /** Two squares on one diagonal, `n` apart, are related by `Shift` along `DirOf`. */
  lemma DirOfShift(from: Position, to: Position)
    requires Abs(to.row - from.row) == Abs(to.col - from.col)
    ensures to == Shift(from, DirOf(to.row - from.row, to.col - from.col), Abs(to.row - from.row))
  {
  }

  /** The row step of a man of colour `c`: White moves up the board, Black down. */
  function Forward(c: Color): (dir: int)
    ensures dir == 1 || dir == -1
  {
    if c == White then -1 else 1
  }

  /** The two directions a man of colour `c` may move in. */
  predicate IsForward(c: Color, d: Direction)
  {
    if c == White then d == UpLeft || d == UpRight else d == DownLeft || d == DownRight
  }

  /** The far row on which a man of colour `c` is promoted. */
  function PromotionRow(c: Color): int
  {
    if c == White then 0 else 7
  }

  // ---------------------------------------------------------------------------
  // Start position
  // ---------------------------------------------------------------------------

  /** The piece the standard layout puts on (row, col). */
  function InitialPiece(row: int, col: int): Option<Piece>
  {
    if (row + col) % 2 == 1 && 0 <= row < 3 then Some(Piece(Black, Man))
    else if (row + col) % 2 == 1 && 5 <= row < 8 then Some(Piece(White, Man))
    else None
  }

  /** Every square holds exactly what the standard layout puts there. */
  ghost predicate IsInitialPosition(b: Board)
  {
    forall p: Position :: p.IsValid() ==> PieceAt(b, p) == InitialPiece(p.row, p.col)
  }

  /** The tile of a grid at (row, col). */
  function Cell(tiles: Grid, row: int, col: int): Tile
    requires 0 <= row < 8 && 0 <= col < 8
  {
    tiles[row * SIZE + col]
  }

  /** Replaces the tile at (row, col) of a grid, leaving every other cell and every flag as it was. */
  function SetCell(tiles: Grid, row: int, col: int, t: Tile): (r: Grid)
    requires 0 <= row < 8 && 0 <= col < 8
    ensures Cell(r, row, col) == t
    ensures forall i, c :: 0 <= i < 8 && 0 <= c < 8 && (i, c) != (row, col) ==> Cell(r, i, c) == Cell(tiles, i, c)
    ensures forall i :: 0 <= i < 64 && i != row * SIZE + col ==> r[i] == tiles[i]
  {
    tiles[row * SIZE + col := t]
  }

  /** `Board::initialize`: empty every tile, then place the black men on the dark squares of
      rows 0-2 and the white men on the dark squares of rows 5-7. Highlight flags and the
      side to move are left untouched. */
  method Initialize(b: Board) returns (r: Board)
    ensures IsInitialPosition(r)
    ensures forall p: Position :: p.IsValid() ==> TileAt(r, p).highlighted == TileAt(b, p).highlighted
    ensures r.currentPlayer == b.currentPlayer
  {
    var tiles: Grid := b.tiles;
    for row := 0 to SIZE
      invariant forall i :: 0 <= i < 64 ==> tiles[i].highlighted == b.tiles[i].highlighted
      invariant forall i :: 0 <= i < row * SIZE ==> !tiles[i].HasPiece()
    {
      for col := 0 to SIZE
        invariant forall i :: 0 <= i < 64 ==> tiles[i].highlighted == b.tiles[i].highlighted
        invariant forall i :: 0 <= i < row * SIZE + col ==> !tiles[i].HasPiece()
      {
        tiles := SetCell(tiles, row, col, Cell(tiles, row, col).RemovePiece());
      }
    }
    for row := 0 to 3
      invariant forall i :: 0 <= i < 64 ==> tiles[i].highlighted == b.tiles[i].highlighted
      invariant forall r, c :: 0 <= r < row && 0 <= c < 8 ==> Cell(tiles, r, c).piece == InitialPiece(r, c)
      invariant forall r, c :: row <= r < 8 && 0 <= c < 8 ==> !Cell(tiles, r, c).HasPiece()
    {
      for col := 0 to SIZE
        invariant forall i :: 0 <= i < 64 ==> tiles[i].highlighted == b.tiles[i].highlighted
        invariant forall r, c :: 0 <= r < row && 0 <= c < 8 ==> Cell(tiles, r, c).piece == InitialPiece(r, c)
        invariant forall c :: 0 <= c < col ==> Cell(tiles, row, c).piece == InitialPiece(row, c)
        invariant forall c :: col <= c < 8 ==> !Cell(tiles, row, c).HasPiece()
        invariant forall r, c :: row < r < 8 && 0 <= c < 8 ==> !Cell(tiles, r, c).HasPiece()
      {
        if (row + col) % 2 == 1 {
          tiles := SetCell(tiles, row, col, Cell(tiles, row, col).SetPiece(NewPiece(Black)));
        }
      }
    }
    for row := SIZE - 3 to SIZE
      invariant forall i :: 0 <= i < 64 ==> tiles[i].highlighted == b.tiles[i].highlighted
      invariant forall r, c :: 0 <= r < row && 0 <= c < 8 ==> Cell(tiles, r, c).piece == InitialPiece(r, c)
      invariant forall r, c :: row <= r < 8 && 0 <= c < 8 ==> !Cell(tiles, r, c).HasPiece()
    {
      for col := 0 to SIZE
        invariant forall i :: 0 <= i < 64 ==> tiles[i].highlighted == b.tiles[i].highlighted
        invariant forall r, c :: 0 <= r < row && 0 <= c < 8 ==> Cell(tiles, r, c).piece == InitialPiece(r, c)
        invariant forall c :: 0 <= c < col ==> Cell(tiles, row, c).piece == InitialPiece(row, c)
        invariant forall c :: col <= c < 8 ==> !Cell(tiles, row, c).HasPiece()
        invariant forall r, c :: row < r < 8 && 0 <= c < 8 ==> !Cell(tiles, r, c).HasPiece()
      {
        if (row + col) % 2 == 1 {
          tiles := SetCell(tiles, row, col, Cell(tiles, row, col).SetPiece(NewPiece(White)));
        }
      }
    }
    r := Board(tiles, b.currentPlayer);
  }

  // ---------------------------------------------------------------------------
  // Counting pieces
  // ---------------------------------------------------------------------------

  /** Pieces of colour `color` in columns `col`..7 of `row`. */
  function CountInRow(b: Board, color: Color, row: int, col: int): nat
    requires 0 <= row < 8 && 0 <= col <= 8
    decreases 8 - col
  {
    if col == 8 then 0
    else (if HasPieceOf(b, Position(row, col), color) then 1 else 0) + CountInRow(b, color, row, col + 1)
  }

  /** Pieces of colour `color` on rows `row`..7. */
  function CountFromRow(b: Board, color: Color, row: int): nat
    requires 0 <= row <= 8
    decreases 8 - row
  {
    if row == 8 then 0 else CountInRow(b, color, row, 0) + CountFromRow(b, color, row + 1)
  }

  /** Pieces of colour `color` on the whole board. */
  function CountPieces(b: Board, color: Color): nat
  {
    CountFromRow(b, color, 0)
  }

  /** The rows on which the standard layout puts men of colour `color`. */
  predicate IsHomeRow(color: Color, row: int)
  {
    if color == Black then 0 <= row < 3 else 5 <= row < 8
  }

  /** The dark squares (odd row + column) among columns `col`..7 of `row`. */
  function DarkSquares(row: int, col: int): nat
    requires 0 <= col <= 8
    decreases 8 - col
  {
    if col == 8 then 0 else (if (row + col) % 2 == 1 then 1 else 0) + DarkSquares(row, col + 1)
  }

  /** Every other square of a row is dark, so a full row has four. */
  lemma {:induction false} DarkSquaresCount(row: int, col: int)
    requires 0 <= col <= 8
    ensures DarkSquares(row, col) == if (row + col) % 2 == 1 then (9 - col) / 2 else (8 - col) / 2
    decreases 8 - col
  {
    if col < 8 {
      DarkSquaresCount(row, col + 1);
      assert (row + col) % 2 == 1 <==> (row + col + 1) % 2 == 0;
    }
  }

  /** Each row has four dark squares. */
  lemma DarkSquaresInRow(row: int)
    ensures DarkSquares(row, 0) == 4
  {
    DarkSquaresCount(row, 0);
  }

  /** In the start position a home row holds one man on every dark square of the scanned columns. */
  lemma {:induction false} InitialRowCount(b: Board, color: Color, row: int, col: int)
    requires IsInitialPosition(b)
    requires 0 <= row < 8 && 0 <= col <= 8
    ensures CountInRow(b, color, row, col) == if IsHomeRow(color, row) then DarkSquares(row, col) else 0
    decreases 8 - col
  {
    if col < 8 {
      InitialRowCount(b, color, row, col + 1);
      assert PieceAt(b, Position(row, col)) == InitialPiece(row, col);
      assert HasPieceOf(b, Position(row, col), color) <==> (row + col) % 2 == 1 && IsHomeRow(color, row);
    }
  }

  lemma {:induction false} InitialRowsCount(b: Board, color: Color, row: int)
    requires IsInitialPosition(b)
    requires 0 <= row <= 8
    ensures CountFromRow(b, color, row)
         == if color == Black then (if row < 3 then 4 * (3 - row) else 0)
            else (if row < 5 then 12 else 4 * (8 - row))
    decreases 8 - row
  {
    if row < 8 {
      InitialRowsCount(b, color, row + 1);
      InitialRowCount(b, color, row, 0);
      DarkSquaresInRow(row);
    }
  }

  /** The start position holds twelve men of each colour. */
  lemma InitialPositionCounts(b: Board)
    requires IsInitialPosition(b)
    ensures CountPieces(b, Black) == 12 && CountPieces(b, White) == 12
  {
    InitialRowsCount(b, Black, 0);
    InitialRowsCount(b, White, 0);
  }

  /** In the start position rows 3 and 4 are empty, and every piece is a man on a dark square. */
  lemma InitialPositionLayout(b: Board)
    requires IsInitialPosition(b)
    ensures forall p: Position :: p.IsValid() && 3 <= p.row <= 4 ==> !Occupied(b, p)
    ensures forall p: Position :: p.IsValid() && Occupied(b, p) ==> (p.row + p.col) % 2 == 1 && PieceAt(b, p).value.kind == Man
  {
    forall p: Position | p.IsValid()
      ensures Occupied(b, p) ==> (p.row + p.col) % 2 == 1 && PieceAt(b, p).value.kind == Man && !(3 <= p.row <= 4)
    {
      assert PieceAt(b, p) == InitialPiece(p.row, p.col);
    }
  }

  // ---------------------------------------------------------------------------
  // Applying a move
  // ---------------------------------------------------------------------------

  /** What `Board::applyMove` needs to stay within defined behaviour: all squares on the board,
      a piece to move, and a landing square that is neither the start nor a captured square
      (either would leave the landing tile empty and the promotion check would dereference null). */
  predicate CanApply(b: Board, m: Move)
  {
    && m.from.IsValid() && m.to.IsValid()
    && (forall c <- m.captured :: c.IsValid())
    && Occupied(b, m.from)
    && m.from != m.to
    && m.to !in m.captured
  }

  /** Empties every square of `caps`. */
  function RemoveAll(b: Board, caps: seq<Position>): (r: Board)
    requires forall c <- caps :: c.IsValid()
    ensures forall p: Position :: p.IsValid() ==>
      TileAt(r, p) == if p in caps then TileAt(b, p).RemovePiece() else TileAt(b, p)
    ensures r.currentPlayer == b.currentPlayer
    decreases |caps|
  {
    if caps == [] then b
    else
      var first := WithTile(b, caps[0], TileAt(b, caps[0]).RemovePiece());
      RemoveAll(first, caps[1..])
  }

  /** `Board::applyMove`: move the piece, empty the captured squares, promote a man that reached
      its far row, and hand the turn to the other side. The move is not re-validated. */
  function ApplyMove(b: Board, m: Move): (r: Board)
    requires CanApply(b, m)
    ensures !Occupied(r, m.from)
    ensures forall c <- m.captured :: !Occupied(r, c)
    ensures Occupied(r, m.to)
    ensures PieceAt(r, m.to).value.color == PieceAt(b, m.from).value.color
    ensures PieceAt(r, m.to).value.kind == King
        <==> PieceAt(b, m.from).value.kind == King || m.to.row == PromotionRow(PieceAt(b, m.from).value.color)
    ensures forall p: Position :: p.IsValid() && p != m.from && p != m.to && p !in m.captured ==>
      TileAt(r, p) == TileAt(b, p)
    ensures forall p: Position :: p.IsValid() ==> TileAt(r, p).highlighted == TileAt(b, p).highlighted
    ensures r.currentPlayer == Opponent(b.currentPlayer)
  {
    var piece := PieceAt(b, m.from).value;
    var placed := WithTile(b, m.to, TileAt(b, m.to).SetPiece(piece));
    var moved := WithTile(placed, m.from, TileAt(placed, m.from).RemovePiece());
    var cleared := RemoveAll(moved, m.captured);
    var landed := PieceAt(cleared, m.to).value;
    var promoted :=
      if (landed.color == White && m.to.row == 0) || (landed.color == Black && m.to.row == 7)
      then WithTile(cleared, m.to, TileAt(cleared, m.to).SetPiece(MakeKing(landed)))
      else cleared;
    promoted.(currentPlayer := Opponent(b.currentPlayer))
  }
}
