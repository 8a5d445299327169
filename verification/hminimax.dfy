/**
 * Depth-limited heuristic minimax with alpha-beta pruning (HMINIMAX.java). The
 * search carries a ply counter `d`: the successors of the root are searched at
 * depth 1, every expansion passes `d + 1` to its successors, and a state that is
 * finished or reached at depth `CutoffDepth` is scored by the static evaluator
 * instead of being expanded.
 *
 * The evaluator weighs the four corners by 4 and the border cells at index
 * 1 .. n-3 by 2 (the loops stop before index n-2), each counted for the player
 * holding it, and collapses the sum to its sign.
 */
module HMinimax {
  import opened GameTree
  import opened Scores
  import Minimax

  const CutoffDepth: nat := 6
  const Corner: int := 4
  const Edge: int := 2

  predicate CutoffTest(s: State, d: int)
  {
    TerminalTest(s) || d >= CutoffDepth
  }

  // ----- the static evaluator -----

  /** What a cell of weight `w` adds: `w` if `me` holds it, `-w` if any other non-zero value does, 0 if empty. */
  function Weighted(w: int, cell: int, me: Player): int
  {
    if cell == 0 then 0 else if cell == me then w else -w
  }

  /** The four corner cells, `Corner` each. */
  function CornerScore(b: Board, me: Player): int
  {
    var n := |b|;
    Weighted(Corner, b[0][0], me) + Weighted(Corner, b[0][n - 1], me)
      + Weighted(Corner, b[n - 1][0], me) + Weighted(Corner, b[n - 1][n - 1], me)
  }

  /** The left and right column cells of the rows 1 .. k-1, `Edge` each. */
  function ColumnsScore(b: Board, me: Player, k: int): int
    requires k <= |b|
  {
    if k <= 1 then 0
    else
      var n := |b|;
      ColumnsScore(b, me, k - 1) + Weighted(Edge, b[k - 1][0], me) + Weighted(Edge, b[k - 1][n - 1], me)
  }

  /** The top and bottom row cells of the columns 1 .. k-1, `Edge` each. */
  function RowsScore(b: Board, me: Player, k: int): int
    requires k <= |b|
  {
    if k <= 1 then 0
    else
      var n := |b|;
      RowsScore(b, me, k - 1) + Weighted(Edge, b[0][k - 1], me) + Weighted(Edge, b[n - 1][k - 1], me)
  }

  /** The weighted sum `eval` accumulates before it is collapsed to its sign. */
  function BorderScore(b: Board, me: Player): int
  {
    CornerScore(b, me) + ColumnsScore(b, me, |b| - 2) + RowsScore(b, me, |b| - 2)
  }

  /** The weight the sum gives to the cell at row `r`, column `c` of an `n` by `n` board. */
  function CellWeight(n: int, r: int, c: int): int
  {
    if (r == 0 || r == n - 1) && (c == 0 || c == n - 1) then Corner
    else if (c == 0 || c == n - 1) && 1 <= r <= n - 3 then Edge
    else if (r == 0 || r == n - 1) && 1 <= c <= n - 3 then Edge
    else 0
  }

  function Sign(x: int): int
  {
    if x > 0 then 1 else if x < 0 then -1 else 0
  }

  /**
   * The heuristic value of `s` for `me`: the utility of a finished game, otherwise
   * the sign of the weighted corner and border sum.
   */
  function EvalOf(s: State, me: Player): (r: int)
    ensures -1 <= r <= 1
    ensures TerminalTest(s) ==> r == Utility(s, me)
    ensures !TerminalTest(s) ==>
      (r == 1 <==> BorderScore(s.board, me) > 0) && (r == -1 <==> BorderScore(s.board, me) < 0)
  {
    if TerminalTest(s) then Utility(s, me) else Sign(BorderScore(s.board, me))
  }

  /**
   * `eval(s)`: accumulates the weighted sum over the corners, then over the left and
   * right columns, then over the top and bottom rows, and returns its sign.
   */
  method Eval(s: State, me: Player) returns (r: int)
    ensures r == EvalOf(s, me)
  {
    if TerminalTest(s) {
      return Utility(s, me);
    }
    var board := s.board;
    var n := |board|;
    var score := 0;
    score := score + Weighted(Corner, board[0][0], me);
    score := score + Weighted(Corner, board[0][n - 1], me);
    score := score + Weighted(Corner, board[n - 1][0], me);
    score := score + Weighted(Corner, board[n - 1][n - 1], me);

    var i := 1;
    while i < n - 2
      invariant 1 <= i && (i <= n - 2 || i == 1)
      invariant score == CornerScore(board, me) + ColumnsScore(board, me, i)
    {
      score := score + Weighted(Edge, board[i][0], me);
      score := score + Weighted(Edge, board[i][n - 1], me);
      i := i + 1;
    }
    assert ColumnsScore(board, me, i) == ColumnsScore(board, me, n - 2);

    var j := 1;
    while j < n - 2
      invariant 1 <= j && (j <= n - 2 || j == 1)
      invariant score == BorderScore(board, me) - RowsScore(board, me, n - 2) + RowsScore(board, me, j)
    {
      score := score + Weighted(Edge, board[0][j], me);
      score := score + Weighted(Edge, board[n - 1][j], me);
      j := j + 1;
    }
    assert RowsScore(board, me, j) == RowsScore(board, me, n - 2);

    if score > 0 {
      return 1;
    } else if score < 0 {
      return -1;
    }
    return 0;
  }

  /** The board `b` with the cell at row `r`, column `c` set to `y`. */
  function SetCell(b: Board, r: int, c: int, y: int): (b': Board)
    requires 0 <= r < |b| && 0 <= c < |b|
    ensures |b'| == |b| && b'[r][c] == y
    ensures forall i, j :: 0 <= i < |b| && 0 <= j < |b| && (i, j) != (r, c) ==> b'[i][j] == b[i][j]
  {
    b[r := b[r][c := y]]
  }

  lemma {:induction false} ColumnsScoreOfSetCell(b: Board, me: Player, r: int, c: int, y: int, k: int)
    requires |b| >= 2 && 0 <= r < |b| && 0 <= c < |b| && k <= |b|
    ensures ColumnsScore(SetCell(b, r, c, y), me, k) == ColumnsScore(b, me, k)
      + (if (c == 0 || c == |b| - 1) && 1 <= r < k then Weighted(Edge, y, me) - Weighted(Edge, b[r][c], me) else 0)
    decreases k
  {
    if k > 1 {
      ColumnsScoreOfSetCell(b, me, r, c, y, k - 1);
    }
  }

  lemma {:induction false} RowsScoreOfSetCell(b: Board, me: Player, r: int, c: int, y: int, k: int)
    requires |b| >= 2 && 0 <= r < |b| && 0 <= c < |b| && k <= |b|
    ensures RowsScore(SetCell(b, r, c, y), me, k) == RowsScore(b, me, k)
      + (if (r == 0 || r == |b| - 1) && 1 <= c < k then Weighted(Edge, y, me) - Weighted(Edge, b[r][c], me) else 0)
    decreases k
  {
    if k > 1 {
      RowsScoreOfSetCell(b, me, r, c, y, k - 1);
    }
  }

  /**
   * What one cell is worth to the weighted sum: changing the cell at (`r`, `c`) to `y`
   * moves the sum by what the new content is worth at `CellWeight` minus what the old
   * content was worth. So a corner
   * counts 4, a border cell at index 1 .. n-3 counts 2, and every other cell (the
   * interior, and the border cells at index n-2) counts nothing.
   */
  lemma ScoreOfSetCell(b: Board, me: Player, r: int, c: int, y: int)
    requires |b| >= 2 && 0 <= r < |b| && 0 <= c < |b|
    ensures BorderScore(SetCell(b, r, c, y), me)
      == BorderScore(b, me) + Weighted(CellWeight(|b|, r, c), y, me) - Weighted(CellWeight(|b|, r, c), b[r][c], me)
  {
    var n := |b|;
    ColumnsScoreOfSetCell(b, me, r, c, y, n - 2);
    RowsScoreOfSetCell(b, me, r, c, y, n - 2);
  }

  /**
   * The evaluation of an unfinished state ignores the interior of the board and the
   * border cells at index n-2: rewriting such a cell leaves it unchanged.
   */
  lemma EvalIgnoresUnweightedCells(s: State, me: Player, r: int, c: int, y: int)
    requires !TerminalTest(s) && |s.board| >= 2 && 0 <= r < |s.board| && 0 <= c < |s.board|
    requires var n := |s.board|;
      || (0 < r < n - 1 && 0 < c < n - 1)
      || (n >= 3 && (r == 0 || r == n - 1) && c == n - 2)
      || (n >= 3 && (c == 0 || c == n - 1) && r == n - 2)
    ensures EvalOf(s.(board := SetCell(s.board, r, c, y)), me) == EvalOf(s, me)
  {
    ScoreOfSetCell(s.board, me, r, c, y);
  }

  predicate EmptyBoard(b: Board)
  {
    forall i, j :: 0 <= i < |b| && 0 <= j < |b| ==> b[i][j] == 0
  }

  lemma {:induction false} EmptyColumnsAndRows(b: Board, me: Player, k: int)
    requires EmptyBoard(b) && k <= |b|
    ensures ColumnsScore(b, me, k) == 0 && RowsScore(b, me, k) == 0
    decreases k
  {
    if k > 1 {
      EmptyColumnsAndRows(b, me, k - 1);
      assert b[k - 1][0] == 0 && b[0][k - 1] == 0;
      assert b[k - 1][|b| - 1] == 0 && b[|b| - 1][k - 1] == 0;
    }
  }

  /** An unfinished state whose board is empty is worth nothing to either player. */
  lemma EmptyBoardIsNeutral(s: State, me: Player)
    requires !TerminalTest(s) && EmptyBoard(s.board)
    ensures EvalOf(s, me) == 0
  {
    var b := s.board;
    var n := |b|;
    EmptyColumnsAndRows(b, me, n - 2);
    assert b[0][0] == 0 && b[0][n - 1] == 0 && b[n - 1][0] == 0 && b[n - 1][n - 1] == 0;
  }

  // ----- the depth-limited search -----

  /** How many more plies the search expands below a state reached at depth `d`. */
  function Horizon(d: nat): nat
  {
    if d >= CutoffDepth then 0 else CutoffDepth - d
  }

  /** The depth-limited minimax value of `s`, reached at depth `d`, with `me` to move. */
  function HMaxValueOf(s: State, me: Player, d: nat): (r: int)
    ensures IntMin <= r <= IntMax
    decreases s, 1
  {
    if CutoffTest(s, d) then EvalOf(s, me)
    else
      var replies := HMinValuesOfMoves(s, me, d + 1);
      FoldsInRange(replies);
      Maximum(replies)
  }

  /** The depth-limited minimax value of `s`, reached at depth `d`, with the opponent to move. */
  function HMinValueOf(s: State, me: Player, d: nat): (r: int)
    ensures IntMin <= r <= IntMax
    decreases s, 1
  {
    if CutoffTest(s, d) then EvalOf(s, me)
    else
      var replies := HMaxValuesOfMoves(s, me, d + 1);
      FoldsInRange(replies);
      Minimum(replies)
  }

  /** `HMinValueOf` of every successor of `s`, each reached at depth `d`. */
  function HMinValuesOfMoves(s: State, me: Player, d: nat): (r: seq<int>)
    ensures |r| == |s.moves| && InIntRange(r)
    decreases s, 0
  {
    seq(|s.moves|, i requires 0 <= i < |s.moves| => HMinValueOf(s.moves[i].next, me, d))
  }

  /** `HMaxValueOf` of every successor of `s`, each reached at depth `d`. */
  function HMaxValuesOfMoves(s: State, me: Player, d: nat): (r: seq<int>)
    ensures |r| == |s.moves| && InIntRange(r)
    decreases s, 0
  {
    seq(|s.moves|, i requires 0 <= i < |s.moves| => HMaxValueOf(s.moves[i].next, me, d))
  }

  /**
   * `maxValue(s, alpha, beta, d)`, fail-soft against the depth-limited value. The
   * termination measure `Horizon(d)` shows that below a state reached at depth `d`
   * the recursion is at most `CutoffDepth - d` calls deep: no state at depth
   * `CutoffDepth` or deeper is ever expanded. `examined` counts the successors
   * searched: it stops at the first prefix whose depth-limited max reaches `beta`.
   */
  method MaxValue(s: State, me: Player, alpha: int, beta: int, d: nat) returns (v: int, ghost examined: nat)
    requires IntMin <= alpha < beta <= IntMax
    ensures FailSoft(v, HMaxValueOf(s, me, d), alpha, beta)
    ensures IntMin <= v <= IntMax
    ensures CutoffTest(s, d) ==> v == EvalOf(s, me) && examined == 0
    ensures examined <= |s.moves|
    ensures !CutoffTest(s, d) && examined < |s.moves| ==> beta <= v
    ensures !CutoffTest(s, d) ==> examined == FirstAtLeast(HMinValuesOfMoves(s, me, d + 1), beta, 0)
    decreases Horizon(d)
  {
    if CutoffTest(s, d) {
      v := Eval(s, me);
      assert HMaxValueOf(s, me, d) == v;
      return v, 0;
    }
    var depth := d + 1;
    ghost var replies := HMinValuesOfMoves(s, me, depth);
    assert HMaxValueOf(s, me, d) == Maximum(replies);
    v, examined := IntMin, 0;
    var a := alpha;
    for i := 0 to |s.moves|
      invariant examined == i
      invariant IntMin <= v <= IntMax && v < beta
      invariant a == Max(alpha, v)
      invariant FailSoft(v, Maximum(replies[..i]), alpha, beta)
      invariant FirstAtLeast(replies, beta, 0) == FirstAtLeast(replies, beta, i)
    {
      ghost var below;
      var w;
      w, below := MinValue(s.moves[i].next, me, a, beta, depth);
      MaxNodeStep(replies, v, w, alpha, beta, i);
      v, examined := Max(v, w), i + 1;
      if v >= beta {
        return;
      }
      a := if a > v then a else v;
    }
    assert replies[..|s.moves|] == replies;
  }

  /**
   * `minValue(s, alpha, beta, d)`, fail-soft against the depth-limited value; the
   * search stops at the first prefix of successors whose min falls to `alpha`.
   */
  method MinValue(s: State, me: Player, alpha: int, beta: int, d: nat) returns (v: int, ghost examined: nat)
    requires IntMin <= alpha < beta <= IntMax
    ensures FailSoft(v, HMinValueOf(s, me, d), alpha, beta)
    ensures IntMin <= v <= IntMax
    ensures CutoffTest(s, d) ==> v == EvalOf(s, me) && examined == 0
    ensures examined <= |s.moves|
    ensures !CutoffTest(s, d) && examined < |s.moves| ==> v <= alpha
    ensures !CutoffTest(s, d) ==> examined == FirstAtMost(HMaxValuesOfMoves(s, me, d + 1), alpha, 0)
    decreases Horizon(d)
  {
    if CutoffTest(s, d) {
      v := Eval(s, me);
      assert HMinValueOf(s, me, d) == v;
      return v, 0;
    }
    var depth := d + 1;
    ghost var replies := HMaxValuesOfMoves(s, me, depth);
    assert HMinValueOf(s, me, d) == Minimum(replies);
    v, examined := IntMax, 0;
    var b := beta;
    for i := 0 to |s.moves|
      invariant examined == i
      invariant IntMin <= v <= IntMax && alpha < v
      invariant b == Min(beta, v)
      invariant FailSoft(v, Minimum(replies[..i]), alpha, beta)
      invariant FirstAtMost(replies, alpha, 0) == FirstAtMost(replies, alpha, i)
    {
      ghost var below;
      var w;
      w, below := MaxValue(s.moves[i].next, me, alpha, b, depth);
      MinNodeStep(replies, v, w, alpha, beta, i);
      v, examined := Min(v, w), i + 1;
      if v <= alpha {
        return;
      }
      b := if b < v then b else v;
    }
    assert replies[..|s.moves|] == replies;
  }

  /**
   * `decision(s)`: the last legal move whose successor, searched from depth 1 with
   * the full window, has the greatest depth-limited value; none without a legal
   * move.
   */
  method Decision(s: State) returns (move: Option<Position>)
    ensures move == Choice(s.moves, HMinValuesOfMoves(s, s.turn, 1))
  {
    var me := s.turn;
    ghost var scores := HMinValuesOfMoves(s, me, 1);
    move := None;
    var maxValue := IntMin;
    for i := 0 to |s.moves|
      invariant i == 0 ==> move == None && maxValue == IntMin
      invariant i > 0 ==> var k := LastBestIndex(scores[..i]);
        move == Some(s.moves[k].pos) && maxValue == scores[k]
    {
      ghost var examined;
      var val;
      val, examined := MinValue(s.moves[i].next, me, IntMin, IntMax, 1);
      FullWindowExact(val, scores[i]);
      if i > 0 {
        LastBestStep(scores, i);
      }
      if val >= maxValue {
        maxValue := val;
        move := Some(s.moves[i].pos);
      }
    }
    assert scores[..|s.moves|] == scores;
  }

  // ----- what the cutoff means -----

  /**
   * `s` and `t` look alike to a search for `k` plies: the same state apart from the
   * successors, and, if `k > 0`, the same legal moves leading to successors that look
   * alike for `k - 1` plies.
   */
  predicate SameUpTo(s: State, t: State, k: nat)
    decreases k
  {
    && s.(moves := []) == t.(moves := [])
    && (k > 0 ==>
      && |s.moves| == |t.moves|
      && forall i :: 0 <= i < |s.moves| ==>
        s.moves[i].pos == t.moves[i].pos && SameUpTo(s.moves[i].next, t.moves[i].next, k - 1))
  }

  /**
   * The depth-limited value of a state reached at depth `d` depends on nothing more
   * than `Horizon(d)` plies below it: no state at depth `CutoffDepth` or deeper is
   * ever expanded.
   */
  lemma {:induction false} ValueWithinHorizon(s: State, t: State, me: Player, d: nat)
    requires SameUpTo(s, t, Horizon(d))
    ensures HMaxValueOf(s, me, d) == HMaxValueOf(t, me, d)
    ensures HMinValueOf(s, me, d) == HMinValueOf(t, me, d)
    decreases s, 1
  {
    assert s.finished == t.finished && s.board == t.board
        && s.blackTokens == t.blackTokens && s.whiteTokens == t.whiteTokens by {
      assert s.(moves := []) == t.(moves := []);
    }
    if CutoffTest(s, d) {
      assert EvalOf(s, me) == EvalOf(t, me);
    } else {
      RepliesWithinHorizon(s, t, me, d + 1);
    }
  }

  /** The successors of states that look alike, reached at depth `d`, have the same values. */
  lemma {:induction false} RepliesWithinHorizon(s: State, t: State, me: Player, d: nat)
    requires 0 < d <= CutoffDepth && SameUpTo(s, t, Horizon(d) + 1)
    ensures HMinValuesOfMoves(s, me, d) == HMinValuesOfMoves(t, me, d)
    ensures HMaxValuesOfMoves(s, me, d) == HMaxValuesOfMoves(t, me, d)
    decreases s, 0
  {
    forall i | 0 <= i < |s.moves|
      ensures HMinValueOf(s.moves[i].next, me, d) == HMinValueOf(t.moves[i].next, me, d)
      ensures HMaxValueOf(s.moves[i].next, me, d) == HMaxValueOf(t.moves[i].next, me, d)
    {
      ValueWithinHorizon(s.moves[i].next, t.moves[i].next, me, d);
    }
  }

  /** The move `decision` picks depends only on the first `CutoffDepth` plies of the game tree. */
  lemma DecisionWithinHorizon(s: State, t: State)
    requires SameUpTo(s, t, CutoffDepth)
    ensures Choice(s.moves, HMinValuesOfMoves(s, s.turn, 1)) == Choice(t.moves, HMinValuesOfMoves(t, t.turn, 1))
  {
    assert s.turn == t.turn;
    forall i | 0 <= i < |s.moves|
      ensures HMinValueOf(s.moves[i].next, s.turn, 1) == HMinValueOf(t.moves[i].next, s.turn, 1)
    {
      ValueWithinHorizon(s.moves[i].next, t.moves[i].next, s.turn, 1);
    }
    assert HMinValuesOfMoves(s, s.turn, 1) == HMinValuesOfMoves(t, t.turn, 1);
  }

  /** Every line of play from `s` reaches a finished state within `k` plies. */
  predicate FinishesWithin(s: State, k: nat)
    decreases s
  {
    TerminalTest(s) || (k > 0 && forall i :: 0 <= i < |s.moves| ==> FinishesWithin(s.moves[i].next, k - 1))
  }

  /**
   * When every line of play finishes before the cutoff, the depth-limited value is
   * the plain minimax value: the cutoff never fires early and the evaluator is only
   * ever asked about finished games.
   */
  lemma {:induction false} AgreesWithMinimax(s: State, me: Player, d: nat, k: nat)
    requires FinishesWithin(s, k) && d + k <= CutoffDepth
    ensures HMaxValueOf(s, me, d) == Minimax.MaxValueOf(s, me)
    ensures HMinValueOf(s, me, d) == Minimax.MinValueOf(s, me)
    decreases s
  {
    if !TerminalTest(s) {
      forall i | 0 <= i < |s.moves|
        ensures HMinValueOf(s.moves[i].next, me, d + 1) == Minimax.MinValueOf(s.moves[i].next, me)
        ensures HMaxValueOf(s.moves[i].next, me, d + 1) == Minimax.MaxValueOf(s.moves[i].next, me)
      {
        AgreesWithMinimax(s.moves[i].next, me, d + 1, k - 1);
      }
      assert HMinValuesOfMoves(s, me, d + 1) == Minimax.MinValuesOfMoves(s, me);
      assert HMaxValuesOfMoves(s, me, d + 1) == Minimax.MaxValuesOfMoves(s, me);
    }
  }

  /**
   * When every game from the root finishes within `CutoffDepth` plies, `decision`
   * chooses exactly the move plain minimax (and alpha-beta) chooses.
   */
  lemma DecisionAgreesWithMinimax(s: State)
    requires forall i :: 0 <= i < |s.moves| ==> FinishesWithin(s.moves[i].next, CutoffDepth - 1)
    ensures Choice(s.moves, HMinValuesOfMoves(s, s.turn, 1)) == Choice(s.moves, Minimax.MinValuesOfMoves(s, s.turn))
  {
    forall i | 0 <= i < |s.moves|
      ensures HMinValueOf(s.moves[i].next, s.turn, 1) == Minimax.MinValueOf(s.moves[i].next, s.turn)
    {
      AgreesWithMinimax(s.moves[i].next, s.turn, 1, CutoffDepth - 1);
    }
    assert HMinValuesOfMoves(s, s.turn, 1) == Minimax.MinValuesOfMoves(s, s.turn);
  }
}
