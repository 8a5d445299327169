/**
 * Minimax with alpha-beta pruning (MINIMAXAB.java). A maximising node stops
 * expanding as soon as its value reaches `beta`, a minimising node as soon as its
 * value falls to `alpha`; otherwise the window narrows as values come in.
 *
 * The pruned search is proved fail-soft against the plain minimax values of
 * `Minimax`, so the root driver, which opens every move with the full `int` window,
 * chooses exactly the move `Minimax.Decision` chooses.
 */
module MinimaxAB {
  import opened GameTree
  import opened Scores
  import opened Minimax

  /**
   * `maxValue(s, alpha, beta)`: the value of `s` with `me` to move, searched in the
   * window (`alpha`, `beta`). `examined` counts the successors searched: the search
   * stops at the first prefix whose minimax max reaches `beta`.
   */
  method MaxValue(s: State, me: Player, alpha: int, beta: int) returns (v: int, ghost examined: nat)
    requires IntMin <= alpha < beta <= IntMax
    ensures FailSoft(v, MaxValueOf(s, me), alpha, beta)
    ensures IntMin <= v <= IntMax
    ensures TerminalTest(s) ==> v == Utility(s, me) && examined == 0
    ensures examined <= |s.moves|
    ensures !TerminalTest(s) && examined < |s.moves| ==> beta <= v
    ensures !TerminalTest(s) ==> examined == FirstAtLeast(MinValuesOfMoves(s, me), beta, 0)
    decreases s
  {
    if TerminalTest(s) {
      return Utility(s, me), 0;
    }
    ghost var replies := MinValuesOfMoves(s, me);
    v, examined := IntMin, 0;
    var a := alpha;
    for i := 0 to |s.moves|
      invariant examined == i
      invariant IntMin <= v <= IntMax && v < beta
      invariant a == Max(alpha, v)
      invariant FailSoft(v, Maximum(replies[..i]), alpha, beta)
      invariant FirstAtLeast(replies, beta, 0) == FirstAtLeast(replies, beta, i)
    {
      ghost var below;
      var w;
      w, below := MinValue(s.moves[i].next, me, a, beta);
      MaxNodeStep(replies, v, w, alpha, beta, i);
      v, examined := Max(v, w), i + 1;
      if v >= beta {
        return;
      }
      a := if a > v then a else v;
    }
    assert replies[..|s.moves|] == replies;
  }

  /**
   * `minValue(s, alpha, beta)`: the value of `s` with the opponent of `me` to move,
   * searched in the window (`alpha`, `beta`); the search stops at the first prefix
   * of successors whose minimax min falls to `alpha`.
   */
  method MinValue(s: State, me: Player, alpha: int, beta: int) returns (v: int, ghost examined: nat)
    requires IntMin <= alpha < beta <= IntMax
    ensures FailSoft(v, MinValueOf(s, me), alpha, beta)
    ensures IntMin <= v <= IntMax
    ensures TerminalTest(s) ==> v == Utility(s, me) && examined == 0
    ensures examined <= |s.moves|
    ensures !TerminalTest(s) && examined < |s.moves| ==> v <= alpha
    ensures !TerminalTest(s) ==> examined == FirstAtMost(MaxValuesOfMoves(s, me), alpha, 0)
    decreases s
  {
    if TerminalTest(s) {
      return Utility(s, me), 0;
    }
    ghost var replies := MaxValuesOfMoves(s, me);
    v, examined := IntMax, 0;
    var b := beta;
    for i := 0 to |s.moves|
      invariant examined == i
      invariant IntMin <= v <= IntMax && alpha < v
      invariant b == Min(beta, v)
      invariant FailSoft(v, Minimum(replies[..i]), alpha, beta)
      invariant FirstAtMost(replies, alpha, 0) == FirstAtMost(replies, alpha, i)
    {
      ghost var below;
      var w;
      w, below := MaxValue(s.moves[i].next, me, alpha, b);
      MinNodeStep(replies, v, w, alpha, beta, i);
      v, examined := Min(v, w), i + 1;
      if v <= alpha {
        return;
      }
      b := if b < v then b else v;
    }
    assert replies[..|s.moves|] == replies;
  }

  /**
   * `alphaBetaSearch(s)`: every legal move is scored with the full window, so the
   * move chosen is the one plain minimax chooses.
   */
  method AlphaBetaSearch(s: State) returns (move: Option<Position>)
    ensures move == Choice(s.moves, MinValuesOfMoves(s, s.turn))
  {
    var me := s.turn;
    ghost var scores := MinValuesOfMoves(s, me);
    move := None;
    var maxValue := IntMin;
    for i := 0 to |s.moves|
      invariant i == 0 ==> move == None && maxValue == IntMin
      invariant i > 0 ==> var k := LastBestIndex(scores[..i]);
        move == Some(s.moves[k].pos) && maxValue == scores[k]
    {
      ghost var examined;
      var val;
      val, examined := MinValue(s.moves[i].next, me, IntMin, IntMax);
      FullWindowExact(val, scores[i]);
      if i > 0 {
        LastBestStep(scores, i);
      }
      if val >= maxValue {
        maxValue := val;
        move := Some(s.moves[i].pos);
      }
    }
    assert scores[..|s.moves|] == scores;
  }
}
