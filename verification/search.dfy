/**
 * The game-tree search: alpha-beta `minimax` (Black maximises, White minimises) and the root
 * chooser `findBestMove`. Boards are values, so every child is explored on its own copy and the
 * argument is never changed.
 *
 * The pruned search is related to a plain minimax without pruning (`Value`): clamped to the window
 * (alpha, beta) the two agree, and with the root window (-100000, 100000) they are equal.
 */
module Search {
  import opened Wrappers
  import opened Pieces
  import opened Moves
  import opened Boards
  import opened Rules
  import opened MoveGen
  import opened Evaluation

  /** The sentinels the search starts its running maximum and minimum from. */
  const NEG_INF: int := -100000
  const POS_INF: int := 100000

  /** The side to move: Black when maximising, White when minimising. */
  function Player(maximizing: bool): (c: Color)
    ensures c == Black <==> maximizing
  {
    if maximizing then Black else White
  }

  /** One ply less. Kept as a function so that the search and the proofs about it name the
      child depth by the same term. */
  function Pred(n: nat): nat
    requires n > 0
  {
    n - 1
  }

  function Max(a: int, b: int): int
  {
    if a >= b then a else b
  }

  function Min(a: int, b: int): int
  {
    if a <= b then a else b
  }

  /** The boards reached by the side's valid moves, in generation order: the copies the search
      applies each move to. */
  function Children(b: Board, color: Color): (r: seq<Board>)
    ensures |r| == |AllValidMoves(b, color)|
  {
    var moves := AllValidMoves(b, color);
    seq(|moves|, i requires 0 <= i < |moves| => ApplyMove(b, moves[i]))
  }

  // ---------------------------------------------------------------------------
  // minimax with alpha-beta pruning
  // ---------------------------------------------------------------------------

  /** `minimax(board, depth, alpha, beta, maximizingPlayer)`. The value always lies strictly
      between the sentinels, because every leaf is an evaluation and every inner node has a child. */
  function Minimax(b: Board, depth: nat, alpha: int, beta: int, maximizing: bool): (r: int)
    ensures NEG_INF < r < POS_INF
    decreases depth, 1, 0
  {
    var kids := Children(b, Player(maximizing));
    if depth == 0 || |kids| == 0 then Evaluate(b)
    else if maximizing then MaxLoop(kids, Pred(depth), alpha, beta, NEG_INF)
    else MinLoop(kids, Pred(depth), alpha, beta, POS_INF)
  }

  /** The maximising loop over the remaining children, with the running `maxEval` and `alpha`;
      it stops as soon as `beta <= alpha`. */
  function MaxLoop(kids: seq<Board>, depth: nat, alpha: int, beta: int, maxEval: int): (r: int)
    ensures r >= maxEval
    ensures maxEval < POS_INF ==> r < POS_INF
    ensures |kids| > 0 ==> r > NEG_INF
    decreases depth + 1, 0, |kids|
  {
    if kids == [] then maxEval
    else
      var eval := Minimax(kids[0], depth, alpha, beta, false);
      var maxEval' := Max(maxEval, eval);
      var alpha' := Max(alpha, eval);
      if beta <= alpha' then maxEval'
      else MaxLoop(kids[1..], depth, alpha', beta, maxEval')
  }

  /** The minimising loop, symmetric to `MaxLoop`. */
  function MinLoop(kids: seq<Board>, depth: nat, alpha: int, beta: int, minEval: int): (r: int)
    ensures r <= minEval
    ensures minEval > NEG_INF ==> r > NEG_INF
    ensures |kids| > 0 ==> r < POS_INF
    decreases depth + 1, 0, |kids|
  {
    if kids == [] then minEval
    else
      var eval := Minimax(kids[0], depth, alpha, beta, true);
      var minEval' := Min(minEval, eval);
      var beta' := Min(beta, eval);
      if beta' <= alpha then minEval'
      else MinLoop(kids[1..], depth, alpha, beta', minEval')
  }

  /** A leaf: depth exhausted, or the side to move has no valid move. */
  lemma MinimaxLeaf(b: Board, depth: nat, alpha: int, beta: int, maximizing: bool)
    requires depth == 0 || forall m: Move :: !IsValidMove(b, m, Player(maximizing))
    ensures Minimax(b, depth, alpha, beta, maximizing) == Evaluate(b)
  {
    NoMovesIffStuck(b, Player(maximizing));
    assert depth == 0 || |Children(b, Player(maximizing))| == 0;
  }

  // ---------------------------------------------------------------------------
  // Plain minimax, the reference the pruned search is measured against
  // ---------------------------------------------------------------------------

  /** The minimax value of `b` searched `depth` plies deep without pruning. */
  function Value(b: Board, depth: nat, maximizing: bool): (r: int)
    ensures NEG_INF < r < POS_INF
    decreases depth, 1, 0
  {
    var kids := Children(b, Player(maximizing));
    if depth == 0 || |kids| == 0 then Evaluate(b)
    else if maximizing then PlainMax(kids, Pred(depth), NEG_INF)
    else PlainMin(kids, Pred(depth), POS_INF)
  }

  /** The largest of `acc` and the children's values. */
  function PlainMax(kids: seq<Board>, depth: nat, acc: int): (r: int)
    ensures r >= acc
    ensures acc < POS_INF ==> r < POS_INF
    ensures |kids| > 0 ==> r > NEG_INF
    decreases depth + 1, 0, |kids|
  {
    if kids == [] then acc
    else PlainMax(kids[1..], depth, Max(acc, Value(kids[0], depth, false)))
  }

  /** The smallest of `acc` and the children's values. */
  function PlainMin(kids: seq<Board>, depth: nat, acc: int): (r: int)
    ensures r <= acc
    ensures acc > NEG_INF ==> r > NEG_INF
    ensures |kids| > 0 ==> r < POS_INF
    decreases depth + 1, 0, |kids|
  {
    if kids == [] then acc
    else PlainMin(kids[1..], depth, Min(acc, Value(kids[0], depth, true)))
  }

  // ---------------------------------------------------------------------------
  // Alpha-beta correctness
  // ---------------------------------------------------------------------------

  /** `x` cut to the window [lo, hi]. */
  function Clamp(x: int, lo: int, hi: int): int
  {
    if x < lo then lo else if x > hi then hi else x
  }

  lemma ClampMax(x: int, y: int, lo: int, hi: int)
    requires lo < hi
    ensures Clamp(Max(x, y), lo, hi) == Max(Clamp(x, lo, hi), Clamp(y, lo, hi))
  {
  }

  lemma ClampMin(x: int, y: int, lo: int, hi: int)
    requires lo < hi
    ensures Clamp(Min(x, y), lo, hi) == Min(Clamp(x, lo, hi), Clamp(y, lo, hi))
  {
  }

  /** Raising the lower edge keeps agreement for two values that are both at least the new edge. */
  lemma ClampRaise(x: int, y: int, lo: int, lo': int, hi: int)
    requires lo <= lo' < hi
    requires lo' == lo || (x >= lo' && y >= lo')
    requires Clamp(x, lo', hi) == Clamp(y, lo', hi)
    ensures Clamp(x, lo, hi) == Clamp(y, lo, hi)
  {
  }

  /** Lowering the upper edge, symmetric to `ClampRaise`. */
  lemma ClampLower(x: int, y: int, lo: int, hi': int, hi: int)
    requires lo < hi' <= hi
    requires hi' == hi || (x <= hi' && y <= hi')
    requires Clamp(x, lo, hi') == Clamp(y, lo, hi')
    ensures Clamp(x, lo, hi) == Clamp(y, lo, hi)
  {
  }

  /** The running maximum can take a value in at any point. */
  lemma {:induction false} PlainMaxShift(kids: seq<Board>, depth: nat, acc: int, x: int)
    ensures PlainMax(kids, depth, Max(acc, x)) == Max(x, PlainMax(kids, depth, acc))
    decreases |kids|
  {
    if kids != [] {
      var v := Value(kids[0], depth, false);
      assert Max(Max(acc, x), v) == Max(Max(acc, v), x);
      PlainMaxShift(kids[1..], depth, Max(acc, v), x);
    }
  }

  lemma {:induction false} PlainMinShift(kids: seq<Board>, depth: nat, acc: int, x: int)
    ensures PlainMin(kids, depth, Min(acc, x)) == Min(x, PlainMin(kids, depth, acc))
    decreases |kids|
  {
    if kids != [] {
      var v := Value(kids[0], depth, true);
      assert Min(Min(acc, x), v) == Min(Min(acc, v), x);
      PlainMinShift(kids[1..], depth, Min(acc, v), x);
    }
  }

  /** Alpha-beta correctness: for any window alpha < beta, the pruned value and the plain minimax
      value agree once both are clamped to [alpha, beta]. */
  lemma {:induction false} AlphaBetaClamped(b: Board, depth: nat, alpha: int, beta: int, maximizing: bool)
    requires alpha < beta
    ensures Clamp(Minimax(b, depth, alpha, beta, maximizing), alpha, beta)
         == Clamp(Value(b, depth, maximizing), alpha, beta)
    decreases depth, 1, 0
  {
    var kids := Children(b, Player(maximizing));
    if depth == 0 || |kids| == 0 {
    } else if maximizing {
      MaxLoopClamped(kids, Pred(depth), alpha, beta, NEG_INF);
    } else {
      MinLoopClamped(kids, Pred(depth), alpha, beta, POS_INF);
    }
  }

  lemma {:induction false} MaxLoopClamped(kids: seq<Board>, depth: nat, alpha: int, beta: int, acc: int)
    requires alpha < beta
    ensures Clamp(MaxLoop(kids, depth, alpha, beta, acc), alpha, beta)
         == Clamp(PlainMax(kids, depth, acc), alpha, beta)
    decreases depth + 1, 0, |kids|
  {
    if kids != [] {
      var rest := kids[1..];
      var e := Minimax(kids[0], depth, alpha, beta, false);
      var v := Value(kids[0], depth, false);
      AlphaBetaClamped(kids[0], depth, alpha, beta, false);
      var acc' := Max(acc, e);
      var alpha' := Max(alpha, e);
      var p := PlainMax(rest, depth, acc);
      PlainMaxShift(rest, depth, acc, e);
      PlainMaxShift(rest, depth, acc, v);
      ClampMax(e, p, alpha, beta);
      ClampMax(v, p, alpha, beta);
      if beta > alpha' {
        MaxLoopClamped(rest, depth, alpha', beta, acc');
        ClampRaise(MaxLoop(rest, depth, alpha', beta, acc'), PlainMax(rest, depth, acc'), alpha, alpha', beta);
      }
    }
  }

  lemma {:induction false} MinLoopClamped(kids: seq<Board>, depth: nat, alpha: int, beta: int, acc: int)
    requires alpha < beta
    ensures Clamp(MinLoop(kids, depth, alpha, beta, acc), alpha, beta)
         == Clamp(PlainMin(kids, depth, acc), alpha, beta)
    decreases depth + 1, 0, |kids|
  {
    if kids != [] {
      var rest := kids[1..];
      var e := Minimax(kids[0], depth, alpha, beta, true);
      var v := Value(kids[0], depth, true);
      AlphaBetaClamped(kids[0], depth, alpha, beta, true);
      var acc' := Min(acc, e);
      var beta' := Min(beta, e);
      var p := PlainMin(rest, depth, acc);
      PlainMinShift(rest, depth, acc, e);
      PlainMinShift(rest, depth, acc, v);
      ClampMin(e, p, alpha, beta);
      ClampMin(v, p, alpha, beta);
      if beta' > alpha {
        MinLoopClamped(rest, depth, alpha, beta', acc');
        ClampLower(MinLoop(rest, depth, alpha, beta', acc'), PlainMin(rest, depth, acc'), alpha, beta', beta);
      }
    }
  }

  /** Alpha-beta correctness in its usual three cases: a fail-low stays at or below alpha, a
      fail-high stays at or above beta, and a value inside the window is exact. */
  lemma AlphaBetaWindow(b: Board, depth: nat, alpha: int, beta: int, maximizing: bool)
    requires alpha < beta
    ensures var v := Minimax(b, depth, alpha, beta, maximizing);
            var m := Value(b, depth, maximizing);
            && (m <= alpha ==> v <= alpha)
            && (m >= beta ==> v >= beta)
            && (alpha < m < beta ==> v == m)
  {
    AlphaBetaClamped(b, depth, alpha, beta, maximizing);
  }

  /** With the root window of the sentinels the pruned search returns the exact minimax value. */
  lemma RootSearchIsExact(b: Board, depth: nat, maximizing: bool)
    ensures Minimax(b, depth, NEG_INF, POS_INF, maximizing) == Value(b, depth, maximizing)
  {
    AlphaBetaWindow(b, depth, NEG_INF, POS_INF, maximizing);
  }

  // ---------------------------------------------------------------------------
  // findBestMove
  // ---------------------------------------------------------------------------

  /** The minimax value of Black playing `m` at the root of a `depth`-ply search: White replies,
      `depth - 1` plies below. */
  function RootValue(b: Board, m: Move, depth: nat): int
    requires CanApply(b, m) && depth >= 1
  {
    Value(ApplyMove(b, m), Pred(depth), false)
  }

  /** The score `findBestMove` gives `m`: apply it to a copy of the board and search the copy with
      the sentinel window, White to move, one ply less. */
  function SearchMove(b: Board, m: Move, depth: nat): int
    requires CanApply(b, m) && depth >= 1
  {
    Minimax(ApplyMove(b, m), Pred(depth), NEG_INF, POS_INF, false)
  }

  /** The score is the exact minimax value of the move, and never the starting sentinel. */
  lemma SearchMoveIsRootValue(b: Board, m: Move, depth: nat)
    requires CanApply(b, m) && depth >= 1
    ensures SearchMove(b, m, depth) == RootValue(b, m, depth) > NEG_INF
  {
    RootSearchIsExact(ApplyMove(b, m), Pred(depth), false);
  }

  /** The root values of `moves`, in order. */
  function RootValues(b: Board, moves: seq<Move>, depth: nat): (vals: seq<int>)
    requires forall m <- moves :: CanApply(b, m)
    requires depth >= 1
    ensures |vals| == |moves|
  {
    seq(|moves|, j requires 0 <= j < |moves| => RootValue(b, moves[j], depth))
  }

  /** Position `i` holds the first strictly greatest value: every earlier value is smaller and
      no later value is larger. */
  predicate IsFirstBest(vals: seq<int>, i: int)
  {
    && 0 <= i < |vals|
    && (forall j :: 0 <= j < i ==> vals[j] < vals[i])
    && (forall j :: i < j < |vals| ==> vals[j] <= vals[i])
  }

  /** The index `findBestMove`'s loop settles on: it starts from the sentinel and replaces the
      best only on a strictly greater value, so ties keep the earliest index. */
  method FirstBest(vals: seq<int>) returns (best: nat)
    requires |vals| > 0
    requires forall j :: 0 <= j < |vals| ==> vals[j] > NEG_INF
    ensures IsFirstBest(vals, best)
  {
    var bestValue := NEG_INF;
    best := 0;
    for i := 0 to |vals|
      invariant best < |vals|
      invariant i == 0 ==> best == 0 && bestValue == NEG_INF
      invariant i > 0 ==> best < i && bestValue == vals[best]
      invariant forall j :: 0 <= j < best ==> vals[j] < bestValue
      invariant forall j :: 0 <= j < i ==> vals[j] <= bestValue
    {
      if vals[i] > bestValue {
        bestValue := vals[i];
        best := i;
      }
    }
  }

  /** The scores of `moves` in order, each searched on a copy of the board. */
  method ScoreMoves(b: Board, moves: seq<Move>, depth: nat) returns (vals: seq<int>)
    requires forall m <- moves :: CanApply(b, m)
    requires depth >= 1
    ensures vals == RootValues(b, moves, depth)
    ensures forall j :: 0 <= j < |vals| ==> vals[j] > NEG_INF
  {
    ghost var want := RootValues(b, moves, depth);
    RootValuesAboveSentinel(b, moves, depth);
    vals := [];
    for i := 0 to |moves|
      invariant vals == want[..i]
    {
      var value := ScoreMove(b, moves, depth, i);
      PrefixGrows(want, i);
      vals := vals + [value];
    }
    PrefixWhole(want);
  }

  /** Extending a prefix by the next element. */
  lemma PrefixGrows(s: seq<int>, i: int)
    requires 0 <= i < |s|
    ensures s[..i + 1] == s[..i] + [s[i]]
  {
  }

  /** The full-length prefix is the sequence itself. */
  lemma PrefixWhole(s: seq<int>)
    ensures s[..|s|] == s
  {
  }

  /** The score of the `i`-th move, searched on a copy of the board. */
  method ScoreMove(b: Board, moves: seq<Move>, depth: nat, i: int) returns (v: int)
    requires forall m <- moves :: CanApply(b, m)
    requires depth >= 1 && 0 <= i < |moves|
    ensures v == RootValues(b, moves, depth)[i]
  {
    v := SearchMove(b, moves[i], depth);
    SearchMoveIsRootValueAt(b, moves, depth, i);
  }

  /** Every root value lies above the losing sentinel. */
  lemma RootValuesAboveSentinel(b: Board, moves: seq<Move>, depth: nat)
    requires forall m <- moves :: CanApply(b, m)
    requires depth >= 1
    ensures forall j :: 0 <= j < |moves| ==> RootValues(b, moves, depth)[j] > NEG_INF
  {
    forall j | 0 <= j < |moves|
      ensures RootValues(b, moves, depth)[j] > NEG_INF
    {
      SearchMoveIsRootValueAt(b, moves, depth, j);
    }
  }

  /** The score of the `i`-th move is its root value. */
  lemma SearchMoveIsRootValueAt(b: Board, moves: seq<Move>, depth: nat, i: int)
    requires forall m <- moves :: CanApply(b, m)
    requires depth >= 1 && 0 <= i < |moves|
    ensures SearchMove(b, moves[i], depth) == RootValues(b, moves, depth)[i] > NEG_INF
  {
    SearchMoveIsRootValue(b, moves[i], depth);
  }

  /** `findBestMove(board, depth)`. It fails exactly when Black has no valid move; otherwise it
      returns the earliest generated move whose minimax value is strictly the greatest. */
  method FindBestMove(b: Board, depth: int) returns (r: Result<Move>)
    requires depth >= 1
    ensures r.Failure? <==> forall m: Move :: !IsValidMove(b, m, Black)
    ensures r.Success? ==>
      var moves := AllValidMoves(b, Black);
      exists i :: IsFirstBest(RootValues(b, moves, depth), i) && r.value == moves[i]
    ensures |AllValidMoves(b, Black)| == 1 ==> r == Success(AllValidMoves(b, Black)[0])
  {
    var moves := AllValidMoves(b, Black);
    NoMovesIffStuck(b, Black);
    if |moves| == 0 {
      return Failure("No moves for AI");
    }
    var vals := ScoreMoves(b, moves, depth);
    var best := FirstBest(vals);
    r := Success(moves[best]);
    assert |moves| == 1 ==> best == 0;
    assert IsFirstBest(RootValues(b, moves, depth), best) && r.value == moves[best];
  }

}
