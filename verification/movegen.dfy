/** The move generator: `Board::getAllValidMoves` and the recursive capture search
    `Board::findMultiCaptures`. */
module MoveGen {
  import opened Wrappers
  import opened Pieces
  import opened Moves
  import opened Boards
  import opened Rules

  // ---------------------------------------------------------------------------
  // Capture search
  // ---------------------------------------------------------------------------

  /** One capture found by the search: where the piece lands and which square it jumps. */
  datatype Jump = Jump(dest: Position, mid: Position)

  /** A jump the search may take from `from`: it passes `isValidMove` as a single capture, and it
      jumps an on-board enemy not yet jumped in this chain. */
  predicate JumpOk(b: Board, from: Position, captured: seq<Position>, color: Color, j: Jump)
  {
    && IsValidMove(b, Move(from, j.dest, [j.mid]), color)
    && j.mid.IsValid() && j.mid !in captured
    && IsEnemy(b, j.mid, color)
  }

  const AllSquares: set<Position> := set r, c | 0 <= r < 8 && 0 <= c < 8 :: Position(r, c)

  /** The squares a chain has not jumped yet; it shrinks with every jump, so the search ends. */
  function Unvisited(captured: seq<Position>): set<Position>
  {
    AllSquares - (set c <- captured)
  }

  lemma UnvisitedShrinks(captured: seq<Position>, mid: Position)
    requires mid.IsValid() && mid !in captured
    ensures Unvisited(captured + [mid]) < Unvisited(captured)
  {
    assert Position(mid.row, mid.col) in AllSquares;
    assert mid in Unvisited(captured) - Unvisited(captured + [mid]);
  }

  /** The man branch for direction `d`: jump from `from` over `from + d` onto `from + 2d`. */
  function ManJump(b: Board, from: Position, captured: seq<Position>, color: Color, d: Direction): (r: seq<Jump>)
    ensures |r| <= 1
    ensures forall j <- r :: JumpOk(b, from, captured, color, j) && j.dest == Shift(from, d, 2)
  {
    var mid := Shift(from, d, 1);
    var dest := Shift(from, d, 2);
    if !dest.IsValid() then []
    else if mid in captured then []
    else if IsValidMove(b, Move(from, dest, [mid]), color) then
      JumpedSquareIsEnemy(b, from, d, 2, [mid], color);
      [Jump(dest, mid)]
    else []
  }

  /** Along a diagonal, a valid jump of two squares jumps the square in between, which holds an enemy. */
  lemma JumpedSquareIsEnemy(b: Board, from: Position, d: Direction, n: int, caps: seq<Position>, color: Color)
    requires n == 2 && |caps| > 0
    requires IsValidMove(b, Move(from, Shift(from, d, n), caps), color)
    ensures Shift(from, d, 1).IsValid() && IsEnemy(b, Shift(from, d, 1), color)
  {
    var m := Move(from, Shift(from, d, n), caps);
    if PieceAt(b, from).value.kind == Man {
      ManMoveRule(b, m, color);
      var d' :| IsForward(color, d') && m.to == Shift(m.from, d', 2) && IsEnemy(b, Shift(m.from, d', 1), color);
      assert d' == d;
    } else {
      KingMoveRule(b, m, color);
      var d', n' :| KingPath(b, m, color, d', n');
      ShiftRecoversDirection(from, d, n);
      ShiftRecoversDirection(from, d', n');
      var j :| 1 <= j < n' && EmptyRange(b, from, d', 1, j)
        && Shift(from, d', j).IsValid() && IsEnemy(b, Shift(from, d', j), color)
        && EmptyRange(b, from, d', j + 1, n');
    }
  }

  /** Rows left before a walk along `d` leaves the board. */
  function EdgeDistance(p: Position, d: Direction): int
  {
    match d
    case UpLeft => p.row + 1
    case UpRight => p.row + 1
    case DownLeft => 8 - p.row
    case DownRight => 8 - p.row
  }

  /** The king's landing squares `from + k*d`, `from + (k+1)*d`, ... beyond the enemy on `mid`,
      taken while they are on the board and empty; each one that `isValidMove` accepts is a jump. */
  function KingLandings(b: Board, from: Position, mid: Position, color: Color, d: Direction, k: int): (r: seq<Jump>)
    ensures forall j <- r :: IsValidMove(b, Move(from, j.dest, [j.mid]), color) && j.mid == mid
    ensures forall j <- r :: exists i :: i >= k && j.dest == Shift(from, d, i)
    ensures |r| <= (if Shift(from, d, k).IsValid() then EdgeDistance(Shift(from, d, k), d) else 0) <= 8
    decreases EdgeDistance(Shift(from, d, k), d)
  {
    var next := Shift(from, d, k);
    if !next.IsValid() || Occupied(b, next) then []
    else
      var here := if IsValidMove(b, Move(from, next, [mid]), color) then [Jump(next, mid)] else [];
      here + KingLandings(b, from, mid, color, d, k + 1)
  }

  /** The king branch for direction `d`: slide over empty squares (`step` = 1..7) to the first
      piece; stop at an own piece or an already-jumped one; otherwise land beyond it. */
  function KingRay(b: Board, from: Position, captured: seq<Position>, color: Color, d: Direction, step: int): (r: seq<Jump>)
    requires step >= 1
    ensures forall j <- r :: JumpOk(b, from, captured, color, j)
    ensures |r| <= 8
    decreases 8 - step
  {
    if step >= 8 then []
    else
      var mid := Shift(from, d, step);
      if !mid.IsValid() then []
      else if !Occupied(b, mid) then KingRay(b, from, captured, color, d, step + 1)
      else if PieceAt(b, mid).value.color == color then []
      else if mid in captured then []
      else KingLandings(b, from, mid, color, d, step + 1)
  }

  /** The jumps for one direction, by the rank the search was told the piece has. */
  function DirJumps(b: Board, from: Position, captured: seq<Position>, color: Color, kind: PieceType, d: Direction): (r: seq<Jump>)
    ensures forall j <- r :: JumpOk(b, from, captured, color, j)
    ensures |r| <= 8
  {
    if kind == Man then ManJump(b, from, captured, color, d) else KingRay(b, from, captured, color, d, 1)
  }

  /** The jumps for the given directions, in order. */
  function JumpsAlong(b: Board, from: Position, captured: seq<Position>, color: Color, kind: PieceType, dirs: seq<Direction>): (r: seq<Jump>)
    ensures forall j <- r :: JumpOk(b, from, captured, color, j)
    ensures |r| <= 8 * |dirs|
  {
    if dirs == [] then []
    else DirJumps(b, from, captured, color, kind, dirs[0]) + JumpsAlong(b, from, captured, color, kind, dirs[1..])
  }

  /** Every single jump available from `from`, in the order the search tries them. */
  function Jumps(b: Board, from: Position, captured: seq<Position>, color: Color, kind: PieceType): (r: seq<Jump>)
    ensures forall j <- r :: JumpOk(b, from, captured, color, j)
    ensures |r| <= 32
  {
    JumpsAlong(b, from, captured, color, kind, Directions)
  }

  /** `Board::findMultiCaptures`: extend the chain `current` (which has jumped `captured`) from
      `from` by every available jump and recurse; a chain no jump extends is emitted if it has
      captured anything. */
  function FindMultiCaptures(b: Board, from: Position, captured: seq<Position>, color: Color,
                             kind: PieceType, current: Move): (r: seq<Move>)
    ensures forall m <- r :: m.from == current.from && m.IsCapture() && current.captured <= m.captured
    decreases Unvisited(captured), 1
  {
    var js := Jumps(b, from, captured, color, kind);
    if |js| == 0 then (if current.IsCapture() then [current] else [])
    else ChainAll(b, js, captured, color, kind, current)
  }

  /** The recursive calls of `findMultiCaptures`, one per jump, results concatenated in order. */
  function ChainAll(b: Board, js: seq<Jump>, captured: seq<Position>, color: Color,
                    kind: PieceType, current: Move): (r: seq<Move>)
    requires forall j <- js :: j.mid.IsValid() && j.mid !in captured
    ensures forall m <- r :: m.from == current.from && current.captured < m.captured
    decreases Unvisited(captured), 0, |js|
  {
    if js == [] then []
    else
      var j := js[0];
      UnvisitedShrinks(captured, j.mid);
      FindMultiCaptures(b, j.dest, captured + [j.mid], color, kind,
                        Move(current.from, j.dest, current.captured + [j.mid]))
      + ChainAll(b, js[1..], captured, color, kind, current)
  }

  // ---------------------------------------------------------------------------
  // Chains never extend
  // ---------------------------------------------------------------------------

  lemma ElementIsMember<T>(s: seq<T>, i: int)
    requires 0 <= i < |s|
    ensures s[i] in s
  {
  }

  /** No jump starts from an empty square: `isValidMove` wants a piece on the start square. */
  lemma NoJumpsFromEmpty(b: Board, from: Position, captured: seq<Position>, color: Color, kind: PieceType)
    requires from.IsValid() && !Occupied(b, from)
    ensures Jumps(b, from, captured, color, kind) == []
  {
    var js := Jumps(b, from, captured, color, kind);
    if |js| > 0 {
      ElementIsMember(js, 0);
      assert false;
    }
  }

  /** Each jump closes its chain at once: the landing square is empty on the unchanged board, so
      the recursive search from it finds nothing, and `current` extended by that one jump is emitted. */
  lemma {:induction false} ChainsStopAfterOneJump(b: Board, js: seq<Jump>, from: Position, captured: seq<Position>,
                                                  color: Color, kind: PieceType, current: Move)
    requires forall j <- js :: JumpOk(b, from, captured, color, j)
    requires forall j <- js :: j.mid.IsValid() && j.mid !in captured
    ensures ChainAll(b, js, captured, color, kind, current)
         == seq(|js|, i requires 0 <= i < |js| => Move(current.from, js[i].dest, current.captured + [js[i].mid]))
    decreases |js|
  {
    if js != [] {
      var j := js[0];
      assert JumpOk(b, from, captured, color, j);
      NoJumpsFromEmpty(b, j.dest, captured + [j.mid], color, kind);
      ChainsStopAfterOneJump(b, js[1..], from, captured, color, kind, current);
    }
  }

  /** The captures `findMultiCaptures` emits for the piece on `p` are exactly its single jumps:
      each has one captured square, and none is ever extended into a chain. */
  lemma CapturesAreSingleJumps(b: Board, p: Position, color: Color, kind: PieceType)
    ensures FindMultiCaptures(b, p, [], color, kind, Move(p, p, []))
         == var js := Jumps(b, p, [], color, kind);
            seq(|js|, i requires 0 <= i < |js| => Move(p, js[i].dest, [js[i].mid]))
  {
    var js := Jumps(b, p, [], color, kind);
    if |js| > 0 {
      ChainsStopAfterOneJump(b, js, p, [], color, kind, Move(p, p, []));
      forall i | 0 <= i < |js|
        ensures [] + [js[i].mid] == [js[i].mid]
      {
      }
    }
  }

  // ---------------------------------------------------------------------------
  // Per-piece moves
  // ---------------------------------------------------------------------------

  /** A generated capture: valid for `color`, with exactly one jumped square, which holds an enemy. */
  predicate CaptureSound(b: Board, m: Move, color: Color)
  {
    && IsValidMove(b, m, color)
    && |m.captured| == 1 && m.captured[0].IsValid() && IsEnemy(b, m.captured[0], color)
  }

  /** A generated non-capturing move: valid for `color`, nothing captured. */
  predicate StepSound(b: Board, m: Move, color: Color)
  {
    IsValidMove(b, m, color) && m.captured == []
  }

  /** The captures of the piece on `from`: `findMultiCaptures(from, {}, ..., Move(from, from))`. */
  function PieceCaptures(b: Board, from: Position, color: Color, kind: PieceType): (r: seq<Move>)
    ensures forall m <- r :: m.IsCapture() && m.from == from
    ensures |r| <= 32
  {
    CapturesAreSingleJumps(b, from, color, kind);
    FindMultiCaptures(b, from, [], color, kind, Move(from, from, []))
  }

  /** Each capture of a piece is valid for its side and jumps exactly one enemy. */
  lemma PieceCapturesSound(b: Board, from: Position, color: Color, kind: PieceType)
    ensures forall m <- PieceCaptures(b, from, color, kind) :: CaptureSound(b, m, color)
  {
    CapturesAreSingleJumps(b, from, color, kind);
    var js := Jumps(b, from, [], color, kind);
    var r := PieceCaptures(b, from, color, kind);
    forall i | 0 <= i < |r|
      ensures CaptureSound(b, r[i], color)
    {
      assert r[i] == Move(from, js[i].dest, [js[i].mid]);
      ElementIsMember(js, i);
    }
  }

  /** One forward step of a man towards column `col + dc`, kept when `isValidMove` accepts it. */
  function ManStep(b: Board, from: Position, color: Color, dc: int): (r: seq<Move>)
    ensures |r| <= 1
    ensures forall m <- r :: StepSound(b, m, color) && m.from == from
  {
    var m := NewMove(from, Position(from.row + Forward(color), from.col + dc));
    if IsValidMove(b, m, color) then [m] else []
  }

  /** A king's slide along `d` (`step` = 1..7): every accepted square up to the first occupied one. */
  function KingSlide(b: Board, from: Position, color: Color, d: Direction, step: int): (r: seq<Move>)
    requires step >= 1
    ensures forall m <- r :: m.captured == [] && m.from == from
    ensures |r| <= if step >= 8 then 0 else 8 - step
    decreases 8 - step
  {
    if step >= 8 then []
    else
      var to := Shift(from, d, step);
      if !to.IsValid() then []
      else
        var m := NewMove(from, to);
        (if IsValidMove(b, m, color) then [m] else [])
        + (if Occupied(b, to) then [] else KingSlide(b, from, color, d, step + 1))
  }

  /** A king's slides along the given directions, in order. */
  function KingSlides(b: Board, from: Position, color: Color, dirs: seq<Direction>): (r: seq<Move>)
    ensures forall m <- r :: m.captured == [] && m.from == from
    ensures |r| <= 7 * |dirs|
  {
    if dirs == [] then [] else KingSlide(b, from, color, dirs[0], 1) + KingSlides(b, from, color, dirs[1..])
  }

  /** The non-capturing moves of the piece on `from`. */
  function PieceSteps(b: Board, from: Position, color: Color, kind: PieceType): (r: seq<Move>)
    ensures forall m <- r :: !m.IsCapture() && m.from == from
    ensures |r| <= 32
  {
    if kind == Man then ManStep(b, from, color, -1) + ManStep(b, from, color, 1)
    else KingSlides(b, from, color, Directions)
  }

  /** Each non-capturing move of a piece is valid for its side. */
  lemma PieceStepsSound(b: Board, from: Position, color: Color, kind: PieceType)
    ensures forall m <- PieceSteps(b, from, color, kind) :: StepSound(b, m, color)
  {
    if kind == King {
      KingSlidesSound(b, from, color, Directions);
    }
  }

  /** Each square a king's slide keeps is accepted by `isValidMove`. */
  lemma {:induction false} KingSlideSound(b: Board, from: Position, color: Color, d: Direction, step: int)
    requires step >= 1
    ensures forall m <- KingSlide(b, from, color, d, step) :: IsValidMove(b, m, color)
    decreases 8 - step
  {
    if step < 8 && Shift(from, d, step).IsValid() && !Occupied(b, Shift(from, d, step)) {
      KingSlideSound(b, from, color, d, step + 1);
    }
  }

  /** Each square the slides along `dirs` keep is accepted by `isValidMove`. */
  lemma {:induction false} KingSlidesSound(b: Board, from: Position, color: Color, dirs: seq<Direction>)
    ensures forall m <- KingSlides(b, from, color, dirs) :: IsValidMove(b, m, color)
  {
    if dirs != [] {
      KingSlideSound(b, from, color, dirs[0], 1);
      KingSlidesSound(b, from, color, dirs[1..]);
    }
  }

  // ---------------------------------------------------------------------------
  // The whole board
  // ---------------------------------------------------------------------------

  /** The two lists `getAllValidMoves` accumulates. */
  datatype Candidates = Candidates(captures: seq<Move>, steps: seq<Move>)

  /** The moves of the piece on `p`, if it is one of `color`'s: the result of its capture search
      and its non-capturing moves. */
  function SquareMoves(b: Board, color: Color, p: Position): (c: Candidates)
    requires p.IsValid()
    ensures |c.captures| <= 32 && |c.steps| <= 32
  {
    if !HasPieceOf(b, p, color) then Candidates([], [])
    else
      var kind := PieceAt(b, p).value.kind;
      Candidates(PieceCaptures(b, p, color, kind), PieceSteps(b, p, color, kind))
  }

  /** The moves of a square are sound. */
  lemma SquareMovesSound(b: Board, color: Color, p: Position)
    requires p.IsValid()
    ensures forall m <- SquareMoves(b, color, p).captures :: CaptureSound(b, m, color)
    ensures forall m <- SquareMoves(b, color, p).steps :: StepSound(b, m, color)
  {
    if HasPieceOf(b, p, color) {
      var kind := PieceAt(b, p).value.kind;
      PieceCapturesSound(b, p, color, kind);
      PieceStepsSound(b, p, color, kind);
    }
  }

  /** The per-square moves of the whole board, square `i` being row `i / 8`, column `i % 8`:
      the order in which the two nested loops of `getAllValidMoves` visit the squares. */
  function SquareTable(b: Board, color: Color): (t: seq<Candidates>)
    ensures |t| == 64
  {
    seq(64, i requires 0 <= i < 64 => SquareMoves(b, color, PositionOf(i)))
  }

  /** The table entry of a square holds that square's moves. */
  lemma SquareTableAt(b: Board, color: Color, p: Position)
    requires p.IsValid()
    ensures SquareTable(b, color)[Index(p)] == SquareMoves(b, color, p)
  {
    IndexInjective(p, PositionOf(Index(p)));
  }

  /** The loops' accumulation: the entries from `i` on, each list appended in square order. */
  function Gather(t: seq<Candidates>, i: nat): (c: Candidates)
    requires i <= |t|
    decreases |t| - i
  {
    if i == |t| then Candidates([], [])
    else
      var rest := Gather(t, i + 1);
      Candidates(t[i].captures + rest.captures, t[i].steps + rest.steps)
  }

  /** Everything gathered comes from some entry at or after `i`. */
  lemma {:induction false} GatherMember(t: seq<Candidates>, i: nat, m: Move)
    requires i <= |t|
    ensures m in Gather(t, i).captures ==> exists k :: i <= k < |t| && m in t[k].captures
    ensures m in Gather(t, i).steps ==> exists k :: i <= k < |t| && m in t[k].steps
    decreases |t| - i
  {
    if i < |t| {
      GatherMember(t, i + 1, m);
    }
  }

  /** Every element of `xs` is in `ys`. */
  predicate IncludedIn(xs: seq<Move>, ys: seq<Move>)
  {
    forall m <- xs :: m in ys
  }

  /** Each entry at or after `i` is gathered in full. */
  lemma {:induction false} GatherIncludes(t: seq<Candidates>, i: nat, k: nat)
    requires i <= k < |t|
    ensures IncludedIn(t[k].captures, Gather(t, i).captures)
    ensures IncludedIn(t[k].steps, Gather(t, i).steps)
    decreases |t| - i
  {
    if i < k {
      GatherIncludes(t, i + 1, k);
    }
  }

  /** With at most 32 moves of each kind per entry, the lists stay within 32 per entry. */
  lemma {:induction false} GatherBound(t: seq<Candidates>, i: nat)
    requires i <= |t|
    requires forall k :: 0 <= k < |t| ==> |t[k].captures| <= 32 && |t[k].steps| <= 32
    ensures |Gather(t, i).captures| <= 32 * (|t| - i)
    ensures |Gather(t, i).steps| <= 32 * (|t| - i)
    decreases |t| - i
  {
    if i < |t| {
      GatherBound(t, i + 1);
    }
  }

  /** The moves collected over the whole board for `color`. */
  function Collected(b: Board, color: Color): Candidates
  {
    Gather(SquareTable(b, color), 0)
  }

  /** Every collected move is sound, and each list has at most 2048 moves. */
  lemma CollectedSound(b: Board, color: Color)
    ensures forall m <- Collected(b, color).captures :: CaptureSound(b, m, color)
    ensures forall m <- Collected(b, color).steps :: StepSound(b, m, color)
    ensures |Collected(b, color).captures| <= 2048 && |Collected(b, color).steps| <= 2048
  {
    var t := SquareTable(b, color);
    GatherBound(t, 0);
    forall m <- Collected(b, color).captures
      ensures CaptureSound(b, m, color)
    {
      GatherMember(t, 0, m);
      var k :| 0 <= k < |t| && m in t[k].captures;
      SquareMovesSound(b, color, PositionOf(k));
    }
    forall m <- Collected(b, color).steps
      ensures StepSound(b, m, color)
    {
      GatherMember(t, 0, m);
      var k :| 0 <= k < |t| && m in t[k].steps;
      SquareMovesSound(b, color, PositionOf(k));
    }
  }

  /** The moves of every own piece are collected. */
  lemma CollectedIncludes(b: Board, color: Color, p: Position)
    requires p.IsValid()
    ensures IncludedIn(SquareMoves(b, color, p).captures, Collected(b, color).captures)
    ensures IncludedIn(SquareMoves(b, color, p).steps, Collected(b, color).steps)
  {
    SquareTableAt(b, color, p);
    GatherIncludes(SquareTable(b, color), 0, Index(p));
  }

  /** `Board::getAllValidMoves`: the captures of `color` if there are any, otherwise its steps.
      Either way the list is all captures or all steps, and every move in it can be applied. */
  function AllValidMoves(b: Board, color: Color): (r: seq<Move>)
    ensures forall m <- r :: CanApply(b, m)
    ensures (forall m <- r :: m.IsCapture()) || (forall m <- r :: !m.IsCapture())
    ensures |r| <= 2048
  {
    var c := Collected(b, color);
    var r := if |c.captures| > 0 then c.captures else c.steps;
    CollectedSound(b, color);
    SoundMovesApply(b, r, color);
    r
  }

  /** Soundness: every generated move passes `isValidMove` for its side, and a generated capture
      jumps exactly one square, which holds an enemy piece. */
  lemma AllValidMovesSound(b: Board, color: Color)
    ensures forall m <- AllValidMoves(b, color) :: IsValidMove(b, m, color) && m.from.IsValid() && HasPieceOf(b, m.from, color)
    ensures forall m <- AllValidMoves(b, color) :: m.to.IsValid() && !Occupied(b, m.to)
    ensures forall m <- AllValidMoves(b, color) :: m.IsCapture() ==> CaptureSound(b, m, color)
  {
    CollectedSound(b, color);
  }

  /** A valid move whose captured squares hold enemies can be applied: the landing square is
      empty, so it is neither the start square nor a captured one. */
  lemma SoundMovesApply(b: Board, ms: seq<Move>, color: Color)
    requires forall m <- ms :: CaptureSound(b, m, color) || StepSound(b, m, color)
    ensures forall m <- ms :: CanApply(b, m)
  {
    forall m <- ms
      ensures CanApply(b, m)
    {
      if m.IsCapture() {
        assert m.captured == [m.captured[0]];
      }
    }
  }

  // ---------------------------------------------------------------------------
  // Completeness: every legal move is generated
  // ---------------------------------------------------------------------------

  /** A diagonal that starts and ends on the board is at most seven squares long. */
  lemma DiagonalLength(from: Position, d: Direction, n: int)
    requires from.IsValid() && Shift(from, d, n).IsValid() && n >= 0
    ensures n <= 7
  {
  }

  lemma {:induction false} JumpsAlongIncludes(b: Board, from: Position, captured: seq<Position>, color: Color,
                                              kind: PieceType, dirs: seq<Direction>, d: Direction)
    requires d in dirs
    ensures forall j <- DirJumps(b, from, captured, color, kind, d) :: j in JumpsAlong(b, from, captured, color, kind, dirs)
  {
    if dirs[0] != d {
      JumpsAlongIncludes(b, from, captured, color, kind, dirs[1..], d);
    }
  }

  /** A jump found by the search shows up, as a one-square capture, among the piece's captures. */
  lemma JumpGivesCapture(b: Board, from: Position, color: Color, kind: PieceType, j: Jump)
    requires j in Jumps(b, from, [], color, kind)
    ensures Move(from, j.dest, [j.mid]) in PieceCaptures(b, from, color, kind)
  {
    CapturesAreSingleJumps(b, from, color, kind);
    var js := Jumps(b, from, [], color, kind);
    var i :| 0 <= i < |js| && js[i] == j;
    assert PieceCaptures(b, from, color, kind)[i] == Move(from, j.dest, [j.mid]);
  }

  /** Landing squares: walking on over empty squares, the king reaches every later empty square
      that `isValidMove` accepts. */
  lemma {:induction false} KingLandingsReach(b: Board, from: Position, mid: Position, color: Color,
                                             d: Direction, k: int, n: int)
    requires k <= n
    requires EmptyRange(b, from, d, k, n + 1)
    requires IsValidMove(b, Move(from, Shift(from, d, n), [mid]), color)
    ensures Jump(Shift(from, d, n), mid) in KingLandings(b, from, mid, color, d, k)
    decreases n - k
  {
    if k < n {
      KingLandingsReach(b, from, mid, color, d, k + 1, n);
    }
  }

  /** The ray passes over an empty square unchanged. */
  lemma KingRaySkips(b: Board, from: Position, color: Color, d: Direction, step: int)
    requires 1 <= step < 8 && Shift(from, d, step).IsValid() && !Occupied(b, Shift(from, d, step))
    ensures KingRay(b, from, [], color, d, step) == KingRay(b, from, [], color, d, step + 1)
  {
  }

  /** At the first enemy, which was not jumped before, the ray lands beyond it. */
  lemma KingRayLands(b: Board, from: Position, color: Color, d: Direction, step: int)
    requires 1 <= step < 8 && Shift(from, d, step).IsValid() && IsEnemy(b, Shift(from, d, step), color)
    ensures KingRay(b, from, [], color, d, step) == KingLandings(b, from, Shift(from, d, step), color, d, step + 1)
  {
  }

  /** The king's ray: over empty squares it slides on to the first enemy and lands beyond it. */
  lemma {:induction false} KingRayReaches(b: Board, from: Position, color: Color, d: Direction, step: int, j: int, n: int)
    requires from.IsValid() && 1 <= step <= j < n
    requires EmptyRange(b, from, d, step, j)
    requires Shift(from, d, j).IsValid() && IsEnemy(b, Shift(from, d, j), color)
    requires EmptyRange(b, from, d, j + 1, n + 1)
    requires IsValidMove(b, Move(from, Shift(from, d, n), [Shift(from, d, j)]), color)
    ensures Jump(Shift(from, d, n), Shift(from, d, j)) in KingRay(b, from, [], color, d, step)
    decreases j - step
  {
    DiagonalLength(from, d, n);
    if step < j {
      assert Shift(from, d, step).IsValid() && !Occupied(b, Shift(from, d, step));
      KingRaySkips(b, from, color, d, step);
      KingRayReaches(b, from, color, d, step + 1, j, n);
    } else {
      KingRayLands(b, from, color, d, step);
      KingLandingsReach(b, from, Shift(from, d, j), color, d, j + 1, n);
    }
  }

  /** A man's valid capture is found by its capture search. */
  lemma ManCaptureComplete(b: Board, m: Move, color: Color)
    requires IsValidMove(b, m, color) && m.IsCapture() && PieceAt(b, m.from).value.kind == Man
    ensures exists g <- PieceCaptures(b, m.from, color, Man) :: g.from == m.from && g.to == m.to
  {
    ManMoveRule(b, m, color);
    var d :| IsForward(color, d) && m.to == Shift(m.from, d, 2) && IsEnemy(b, Shift(m.from, d, 1), color);
    var mid := Shift(m.from, d, 1);
    ValidityIgnoresCapturedContents(b, m.from, m.to, m.captured, [mid], color);
    assert Jump(m.to, mid) in DirJumps(b, m.from, [], color, Man, d);
    JumpsAlongIncludes(b, m.from, [], color, Man, Directions, d);
    JumpGivesCapture(b, m.from, color, Man, Jump(m.to, mid));
  }

  /** The jump over the enemy `j` squares along `d` onto the square `n` squares along `d` is found. */
  lemma KingJumpFound(b: Board, from: Position, color: Color, d: Direction, j: int, n: int)
    requires from.IsValid() && 1 <= j < n
    requires EmptyRange(b, from, d, 1, j)
    requires Shift(from, d, j).IsValid() && IsEnemy(b, Shift(from, d, j), color)
    requires EmptyRange(b, from, d, j + 1, n + 1)
    requires IsValidMove(b, Move(from, Shift(from, d, n), [Shift(from, d, j)]), color)
    ensures Jump(Shift(from, d, n), Shift(from, d, j)) in Jumps(b, from, [], color, King)
  {
    KingRayReaches(b, from, color, d, 1, j, n);
    assert DirJumps(b, from, [], color, King, d) == KingRay(b, from, [], color, d, 1);
    JumpsAlongIncludes(b, from, [], color, King, Directions, d);
  }

  /** An empty range followed by an empty square on the board is a longer empty range. */
  lemma EmptyRangeExtend(b: Board, from: Position, d: Direction, lo: int, hi: int)
    requires EmptyRange(b, from, d, lo, hi)
    requires Shift(from, d, hi).IsValid() && !Occupied(b, Shift(from, d, hi))
    ensures EmptyRange(b, from, d, lo, hi + 1)
  {
  }

  /** A king's valid capture is found by its capture search. */
  lemma KingCaptureComplete(b: Board, m: Move, color: Color)
    requires IsValidMove(b, m, color) && m.IsCapture() && PieceAt(b, m.from).value.kind == King
    ensures exists g <- PieceCaptures(b, m.from, color, King) :: g.from == m.from && g.to == m.to
  {
    KingMoveRule(b, m, color);
    var d, n :| KingPath(b, m, color, d, n);
    var j :| 1 <= j < n && EmptyRange(b, m.from, d, 1, j)
      && Shift(m.from, d, j).IsValid() && IsEnemy(b, Shift(m.from, d, j), color)
      && EmptyRange(b, m.from, d, j + 1, n);
    var mid := Shift(m.from, d, j);
    ValidityIgnoresCapturedContents(b, m.from, m.to, m.captured, [mid], color);
    EmptyRangeExtend(b, m.from, d, j + 1, n);
    KingJumpFound(b, m.from, color, d, j, n);
    JumpGivesCapture(b, m.from, color, King, Jump(m.to, mid));
  }

  /** A man's valid step is generated. */
  lemma ManStepComplete(b: Board, m: Move, color: Color)
    requires IsValidMove(b, m, color) && !m.IsCapture() && PieceAt(b, m.from).value.kind == Man
    ensures m in PieceSteps(b, m.from, color, Man)
  {
    ManMoveRule(b, m, color);
    var d :| IsForward(color, d) && m.to == Shift(m.from, d, 1);
    assert m == NewMove(m.from, m.to);
    var dc := m.to.col - m.from.col;
    assert m.to == Position(m.from.row + Forward(color), m.from.col + dc);
    assert m in ManStep(b, m.from, color, dc);
  }

  /** A king's slide begins with the square `step` away, when `isValidMove` accepts it. */
  lemma KingSlideHead(b: Board, from: Position, color: Color, d: Direction, step: int)
    requires from.IsValid() && 1 <= step <= 7 && Shift(from, d, step).IsValid()
    requires IsValidMove(b, NewMove(from, Shift(from, d, step)), color)
    ensures NewMove(from, Shift(from, d, step)) in KingSlide(b, from, color, d, step)
  {
    var m := NewMove(from, Shift(from, d, step));
    assert KingSlide(b, from, color, d, step)[0] == m;
  }

  /** Past an empty square the slide goes on: what it reaches from the next square it reaches
      from this one too. */
  lemma KingSlideTail(b: Board, from: Position, color: Color, d: Direction, step: int, m: Move)
    requires from.IsValid() && 1 <= step <= 7 && Shift(from, d, step).IsValid()
    requires !Occupied(b, Shift(from, d, step))
    requires m in KingSlide(b, from, color, d, step + 1)
    ensures m in KingSlide(b, from, color, d, step)
  {
    var head := if IsValidMove(b, NewMove(from, Shift(from, d, step)), color) then [NewMove(from, Shift(from, d, step))] else [];
    assert KingSlide(b, from, color, d, step) == head + KingSlide(b, from, color, d, step + 1);
  }

  /** The first square of a non-empty empty range is on the board and empty, and the rest of the
      range is empty too. */
  lemma EmptyRangeFirst(b: Board, from: Position, d: Direction, lo: int, hi: int)
    requires lo < hi && EmptyRange(b, from, d, lo, hi)
    ensures Shift(from, d, lo).IsValid() && !Occupied(b, Shift(from, d, lo))
    ensures EmptyRange(b, from, d, lo + 1, hi)
  {
  }

  /** Sliding on over empty squares, the king reaches every square whose step `isValidMove`
      accepts. */
  lemma {:induction false} KingSlideReaches(b: Board, from: Position, color: Color, d: Direction, step: int, n: int)
    requires from.IsValid() && 1 <= step <= n
    requires EmptyRange(b, from, d, step, n)
    requires IsValidMove(b, NewMove(from, Shift(from, d, n)), color)
    ensures NewMove(from, Shift(from, d, n)) in KingSlide(b, from, color, d, step)
    decreases n - step
  {
    DiagonalLength(from, d, n);
    if step == n {
      KingSlideHead(b, from, color, d, n);
    } else {
      EmptyRangeFirst(b, from, d, step, n);
      KingSlideReaches(b, from, color, d, step + 1, n);
      KingSlideTail(b, from, color, d, step, NewMove(from, Shift(from, d, n)));
    }
  }

  /** What the slide along `d` reaches, the slides along a list of directions containing `d` reach. */
  lemma {:induction false} KingSlidesIncludes(b: Board, from: Position, color: Color, dirs: seq<Direction>, d: Direction, m: Move)
    requires d in dirs && m in KingSlide(b, from, color, d, 1)
    ensures m in KingSlides(b, from, color, dirs)
  {
    if dirs[0] != d {
      KingSlidesIncludes(b, from, color, dirs[1..], d, m);
    }
  }

  /** A king's valid step runs along one diagonal over empty squares. */
  lemma KingStepPath(b: Board, m: Move, color: Color) returns (d: Direction, n: int)
    requires IsValidMove(b, m, color) && !m.IsCapture() && PieceAt(b, m.from).value.kind == King
    ensures 1 <= n && m == NewMove(m.from, Shift(m.from, d, n)) && EmptyRange(b, m.from, d, 1, n)
    ensures d in Directions
  {
    KingMoveRule(b, m, color);
    d, n :| KingPath(b, m, color, d, n);
    assert m.captured == [];
    match d {
      case UpLeft => assert d == Directions[0];
      case UpRight => assert d == Directions[1];
      case DownLeft => assert d == Directions[2];
      case DownRight => assert d == Directions[3];
    }
  }

  /** A king's valid step is generated. */
  lemma KingStepComplete(b: Board, m: Move, color: Color)
    requires IsValidMove(b, m, color) && !m.IsCapture() && PieceAt(b, m.from).value.kind == King
    ensures m in PieceSteps(b, m.from, color, King)
  {
    var d, n := KingStepPath(b, m, color);
    KingSlideReaches(b, m.from, color, d, 1, n);
    KingSlidesIncludes(b, m.from, color, Directions, d, m);
    assert PieceSteps(b, m.from, color, King) == KingSlides(b, m.from, color, Directions);
  }

  // ---------------------------------------------------------------------------
  // The mandatory-capture law
  // ---------------------------------------------------------------------------

  /** Side `color` has some valid capture on the board. */
  ghost predicate CanCaptureAny(b: Board, color: Color)
  {
    exists m: Move :: IsValidMove(b, m, color) && m.IsCapture()
  }

  /** Every valid capture is generated, up to the choice of captured square, whenever it is on offer. */
  lemma CaptureComplete(b: Board, m: Move, color: Color)
    requires IsValidMove(b, m, color) && m.IsCapture()
    ensures exists g <- AllValidMoves(b, color) :: g.IsCapture() && g.from == m.from && g.to == m.to
  {
    var p := m.from;
    var kind := PieceAt(b, p).value.kind;
    if kind == Man {
      ManCaptureComplete(b, m, color);
    } else {
      KingCaptureComplete(b, m, color);
    }
    var g :| g in PieceCaptures(b, p, color, kind) && g.from == m.from && g.to == m.to;
    CollectedIncludes(b, color, p);
    assert g in Collected(b, color).captures;
  }

  /** With no capture on offer, every valid step is generated. */
  lemma StepComplete(b: Board, m: Move, color: Color)
    requires IsValidMove(b, m, color) && !m.IsCapture()
    requires !CanCaptureAny(b, color)
    ensures m in AllValidMoves(b, color)
  {
    var p := m.from;
    var kind := PieceAt(b, p).value.kind;
    if kind == Man {
      ManStepComplete(b, m, color);
    } else {
      KingStepComplete(b, m, color);
    }
    CollectedIncludes(b, color, p);
    NoCapturesScanned(b, color);
  }

  /** With no capture on offer the scan collects no capture, since each one it collects is valid. */
  lemma NoCapturesScanned(b: Board, color: Color)
    requires !CanCaptureAny(b, color)
    ensures Collected(b, color).captures == []
  {
    var caps := Collected(b, color).captures;
    CollectedSound(b, color);
    if |caps| > 0 {
      ElementIsMember(caps, 0);
      assert false;
    }
  }

  /** The mandatory-capture law. When a capture is on offer the generator returns captures only
      (and at least one); otherwise it returns exactly the valid non-capturing moves. */
  lemma MandatoryCapture(b: Board, color: Color)
    ensures CanCaptureAny(b, color) ==>
      |AllValidMoves(b, color)| > 0 && forall m <- AllValidMoves(b, color) :: m.IsCapture()
    ensures !CanCaptureAny(b, color) ==>
      forall m: Move :: m in AllValidMoves(b, color) <==> IsValidMove(b, m, color) && !m.IsCapture()
  {
    AllValidMovesSound(b, color);
    if CanCaptureAny(b, color) {
      var m :| IsValidMove(b, m, color) && m.IsCapture();
      CaptureComplete(b, m, color);
    } else {
      NoCapturesScanned(b, color);
      forall m: Move | IsValidMove(b, m, color) && !m.IsCapture()
        ensures m in AllValidMoves(b, color)
      {
        StepComplete(b, m, color);
      }
    }
  }

  /** The generator comes back empty exactly when the side has no valid move at all. */
  lemma NoMovesIffStuck(b: Board, color: Color)
    ensures |AllValidMoves(b, color)| == 0 <==> forall m: Move :: !IsValidMove(b, m, color)
  {
    MandatoryCapture(b, color);
    AllValidMovesSound(b, color);
    if |AllValidMoves(b, color)| == 0 {
      forall m: Move
        ensures !IsValidMove(b, m, color)
      {
      }
    } else {
      ElementIsMember(AllValidMoves(b, color), 0);
    }
  }

  /** The capture search from one square finds something exactly when the piece standing there
      has a valid capture. */
  lemma PieceCapturesIffCapture(b: Board, p: Position, color: Color, kind: PieceType)
    requires p.IsValid() && Occupied(b, p) && PieceAt(b, p).value.kind == kind
    ensures |PieceCaptures(b, p, color, kind)| > 0
        <==> exists m: Move :: m.from == p && IsValidMove(b, m, color) && m.IsCapture()
  {
    var caps := PieceCaptures(b, p, color, kind);
    if |caps| > 0 {
      PieceCapturesSound(b, p, color, kind);
      ElementIsMember(caps, 0);
      assert caps[0].from == p && IsValidMove(b, caps[0], color) && caps[0].IsCapture();
    }
    if exists m: Move :: m.from == p && IsValidMove(b, m, color) && m.IsCapture() {
      var m: Move :| m.from == p && IsValidMove(b, m, color) && m.IsCapture();
      if kind == Man {
        ManCaptureComplete(b, m, color);
      } else {
        KingCaptureComplete(b, m, color);
      }
    }
  }
}
