/** Single-move legality: `Board::isValidMove`. */
module Rules {
  import opened Wrappers
  import opened Pieces
  import opened Moves
  import opened Boards

  /** Every square `from + k*d` with `lo <= k < hi` is on the board and empty. */
  predicate EmptyRange(b: Board, from: Position, d: Direction, lo: int, hi: int)
  {
    forall k :: lo <= k < hi ==> Shift(from, d, k).IsValid() && !Occupied(b, Shift(from, d, k))
  }

  /** Exactly one square strictly between `from` and `from + n*d` is occupied, by an enemy of `color`. */
  predicate OneEnemyBetween(b: Board, from: Position, d: Direction, n: int, color: Color)
  {
    exists j :: 1 <= j < n && EmptyRange(b, from, d, 1, j)
      && Shift(from, d, j).IsValid() && IsEnemy(b, Shift(from, d, j), color)
      && EmptyRange(b, from, d, j + 1, n)
  }

  /** The king branch's walk along the diagonal: it visits `from + k*d` for `k = 1 .. n-1`
      (the loop stops as soon as the row or the column reaches the target's), fails at once on
      an own piece or on a second enemy, and otherwise yields the number of enemies passed. */
  function KingScan(b: Board, color: Color, from: Position, d: Direction, n: int, k: int, count: nat): (r: Option<nat>)
    requires from.IsValid() && Shift(from, d, n).IsValid()
    requires 1 <= k <= n
    decreases n - k
  {
    if k == n then Some(count)
    else
      ShiftBetweenValid(from, d, n, k);
      var sq := Shift(from, d, k);
      if Occupied(b, sq) then
        if PieceAt(b, sq).value.color == color then None
        else if count + 1 > 1 then None
        else KingScan(b, color, from, d, n, k + 1, count + 1)
      else KingScan(b, color, from, d, n, k + 1, count)
  }

  /** `Board::isValidMove`: is `m` a legal single step or single jump for the side `color`? */
  function IsValidMove(b: Board, m: Move, color: Color): (r: bool)
    ensures r ==> m.from.IsValid() && m.to.IsValid()
    ensures r ==> HasPieceOf(b, m.from, color) && !Occupied(b, m.to)
    ensures r ==> m.from != m.to
  {
    if !m.from.IsValid() || !m.to.IsValid() then false
    else if !Occupied(b, m.from) || Occupied(b, m.to) then false
    else
      var piece := PieceAt(b, m.from).value;
      if piece.color != color then false
      else
        var rowDiff := m.to.row - m.from.row;
        var colDiff := m.to.col - m.from.col;
        match piece.kind
        case Man =>
          var dir := Forward(color);
          if !m.IsCapture() then rowDiff == dir && Abs(colDiff) == 1
          else if rowDiff == 2 * dir && Abs(colDiff) == 2 then
            var mid := Position(m.from.row + dir, (m.from.col + m.to.col) / 2);
            Occupied(b, mid) && PieceAt(b, mid).value.color != color
          else false
        case King =>
          if Abs(rowDiff) != Abs(colDiff) then false
          else
            DirOfShift(m.from, m.to);
            match KingScan(b, color, m.from, DirOf(rowDiff, colDiff), Abs(rowDiff), 1, 0)
            case None => false
            case Some(enemies) => if !m.IsCapture() then enemies == 0 else enemies == 1
  }

  /** Validity looks at the captured list only to tell a step from a jump. */
  lemma ValidityIgnoresCapturedContents(b: Board, from: Position, to: Position, c1: seq<Position>, c2: seq<Position>, color: Color)
    requires (|c1| == 0) == (|c2| == 0)
    ensures IsValidMove(b, Move(from, to, c1), color) == IsValidMove(b, Move(from, to, c2), color)
  {
  }

  // ---------------------------------------------------------------------------
  // Men
  // ---------------------------------------------------------------------------

  /** A man steps one square diagonally forward onto an empty square, or jumps two squares
      diagonally forward over an enemy onto an empty square. */
  lemma ManMoveRule(b: Board, m: Move, color: Color)
    requires m.from.IsValid() && HasPieceOf(b, m.from, color) && PieceAt(b, m.from).value.kind == Man
    ensures IsValidMove(b, m, color) <==>
      && m.to.IsValid() && !Occupied(b, m.to)
      && if !m.IsCapture() then exists d :: IsForward(color, d) && m.to == Shift(m.from, d, 1)
         else exists d :: IsForward(color, d) && m.to == Shift(m.from, d, 2)
                          && IsEnemy(b, Shift(m.from, d, 1), color)
  {
    if IsValidMove(b, m, color) {
      var d := DirOf(m.to.row - m.from.row, m.to.col - m.from.col);
      assert IsForward(color, d);
      if m.IsCapture() {
        assert Shift(m.from, d, 1) == Position(m.from.row + Forward(color), (m.from.col + m.to.col) / 2);
      }
    }
    if m.to.IsValid() && !Occupied(b, m.to) && m.IsCapture() {
      if d :| IsForward(color, d) && m.to == Shift(m.from, d, 2) && IsEnemy(b, Shift(m.from, d, 1), color) {
        assert Shift(m.from, d, 1) == Position(m.from.row + Forward(color), (m.from.col + m.to.col) / 2);
      }
    }
  }

  /** A man never captures backwards: a jump towards its own side is never valid. */
  lemma ManNeverCapturesBackward(b: Board, m: Move, color: Color)
    requires m.from.IsValid() && HasPieceOf(b, m.from, color) && PieceAt(b, m.from).value.kind == Man
    requires m.to.row - m.from.row == -2 * Forward(color)
    ensures !IsValidMove(b, m, color)
  {
  }

  // ---------------------------------------------------------------------------
  // Kings: the diagonal walk
  // ---------------------------------------------------------------------------

  /** Over empty squares the walk passes without counting anything. */
  lemma {:induction false} ScanOverEmpty(b: Board, color: Color, from: Position, d: Direction, n: int, k: int, count: nat)
    requires from.IsValid() && Shift(from, d, n).IsValid() && 1 <= k <= n
    requires EmptyRange(b, from, d, k, n)
    ensures KingScan(b, color, from, d, n, k, count) == Some(count)
    decreases n - k
  {
    if k < n {
      ScanOverEmpty(b, color, from, d, n, k + 1, count);
    }
  }

  /** Walking from an empty stretch over one enemy and on over empty squares counts one enemy. */
  lemma {:induction false} ScanOverOneEnemy(b: Board, color: Color, from: Position, d: Direction, n: int, k: int, j: int)
    requires from.IsValid() && Shift(from, d, n).IsValid() && 1 <= k <= j < n
    requires EmptyRange(b, from, d, k, j)
    requires Shift(from, d, j).IsValid() && IsEnemy(b, Shift(from, d, j), color)
    requires EmptyRange(b, from, d, j + 1, n)
    ensures KingScan(b, color, from, d, n, k, 0) == Some(1)
    decreases n - k
  {
    if k < j {
      ScanOverOneEnemy(b, color, from, d, n, k + 1, j);
    } else {
      ScanOverEmpty(b, color, from, d, n, k + 1, 1);
    }
  }

  /** A walk that finishes with the count it started with saw only empty squares; one that
      finishes with one more saw exactly one enemy and nothing else. A walk never counts past one. */
  lemma {:induction false} ScanOutcome(b: Board, color: Color, from: Position, d: Direction, n: int, k: int, count: nat)
    requires from.IsValid() && Shift(from, d, n).IsValid() && 1 <= k <= n
    requires count <= 1
    ensures KingScan(b, color, from, d, n, k, count) == Some(count) ==> EmptyRange(b, from, d, k, n)
    ensures KingScan(b, color, from, d, n, k, count) == Some(count + 1) ==>
      count == 0 &&
      exists j :: k <= j < n && EmptyRange(b, from, d, k, j)
        && Shift(from, d, j).IsValid() && IsEnemy(b, Shift(from, d, j), color)
        && EmptyRange(b, from, d, j + 1, n)
    ensures KingScan(b, color, from, d, n, k, count) in {None, Some(count), Some(count + 1)}
    decreases n - k
  {
    if k < n {
      ShiftBetweenValid(from, d, n, k);
      var sq := Shift(from, d, k);
      if Occupied(b, sq) {
        if PieceAt(b, sq).value.color != color && count == 0 {
          ScanOutcome(b, color, from, d, n, k + 1, 1);
          if KingScan(b, color, from, d, n, k, count) == Some(1) {
            assert EmptyRange(b, from, d, k, k);
          }
        }
      } else {
        ScanOutcome(b, color, from, d, n, k + 1, count);
        if KingScan(b, color, from, d, n, k, count) == Some(count + 1) {
          var j :| k + 1 <= j < n && EmptyRange(b, from, d, k + 1, j)
            && Shift(from, d, j).IsValid() && IsEnemy(b, Shift(from, d, j), color)
            && EmptyRange(b, from, d, j + 1, n);
          assert EmptyRange(b, from, d, k, j);
        }
      }
    }
  }

  /** `from + n*d` recovers the direction and the distance the king branch computes. */
  lemma ShiftRecoversDirection(from: Position, d: Direction, n: int)
    requires n >= 1
    ensures DirOf(Shift(from, d, n).row - from.row, Shift(from, d, n).col - from.col) == d
    ensures Abs(Shift(from, d, n).row - from.row) == n
    ensures Abs(Shift(from, d, n).col - from.col) == n
  {
  }

  /** `m.to` lies `n >= 1` squares from `m.from` along `d`, and the squares strictly between are
      all empty for a step, or hold exactly one enemy and nothing else for a capture. */
  predicate KingPath(b: Board, m: Move, color: Color, d: Direction, n: int)
  {
    && n >= 1 && m.to == Shift(m.from, d, n)
    && if !m.IsCapture() then EmptyRange(b, m.from, d, 1, n)
       else OneEnemyBetween(b, m.from, d, n, color)
  }

  /** A king moves along a diagonal, over empty squares only when stepping, and over exactly one
      enemy (with nothing else in the way) when capturing; it never passes an own piece. */
  lemma KingMoveRule(b: Board, m: Move, color: Color)
    requires m.from.IsValid() && HasPieceOf(b, m.from, color) && PieceAt(b, m.from).value.kind == King
    ensures IsValidMove(b, m, color) <==>
      && m.to.IsValid() && !Occupied(b, m.to)
      && exists d, n :: KingPath(b, m, color, d, n)
  {
    if IsValidMove(b, m, color) {
      var d := DirOf(m.to.row - m.from.row, m.to.col - m.from.col);
      var n := Abs(m.to.row - m.from.row);
      DirOfShift(m.from, m.to);
      ScanOutcome(b, color, m.from, d, n, 1, 0);
      assert KingPath(b, m, color, d, n);
    }
    if m.to.IsValid() && !Occupied(b, m.to) {
      if d, n :| KingPath(b, m, color, d, n) {
        ShiftRecoversDirection(m.from, d, n);
        if !m.IsCapture() {
          ScanOverEmpty(b, color, m.from, d, n, 1, 0);
        } else {
          var j :| 1 <= j < n && EmptyRange(b, m.from, d, 1, j)
            && Shift(m.from, d, j).IsValid() && IsEnemy(b, Shift(m.from, d, j), color)
            && EmptyRange(b, m.from, d, j + 1, n);
          ScanOverOneEnemy(b, color, m.from, d, n, 1, j);
        }
      }
    }
  }
}
