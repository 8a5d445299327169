/**
 * Plain minimax (MINIMAX.java): exhaustive search down to finished games, scored
 * with the three-valued utility from the point of view of the player who moves at
 * the root.
 *
 * `MaxValueOf` / `MinValueOf` are the minimax values as recursive functions; the
 * methods `MaxValue`, `MinValue` and `Decision` are the source's loops, proved to
 * compute them.
 */
module Minimax {
  import opened GameTree
  import opened Scores

  /** The minimax value of `s` when `me` is to move there. */
  function MaxValueOf(s: State, me: Player): (r: int)
    ensures IntMin <= r <= IntMax
    decreases s, 1
  {
    if TerminalTest(s) then Utility(s, me)
    else
      var replies := MinValuesOfMoves(s, me);
      FoldsInRange(replies);
      Maximum(replies)
  }

  /** The minimax value of `s` when the opponent of `me` is to move there. */
  function MinValueOf(s: State, me: Player): (r: int)
    ensures IntMin <= r <= IntMax
    decreases s, 1
  {
    if TerminalTest(s) then Utility(s, me)
    else
      var replies := MaxValuesOfMoves(s, me);
      FoldsInRange(replies);
      Minimum(replies)
  }

  /** `MinValueOf` of every successor of `s`, in enumeration order. */
  function MinValuesOfMoves(s: State, me: Player): (r: seq<int>)
    ensures |r| == |s.moves| && InIntRange(r)
    decreases s, 0
  {
    seq(|s.moves|, i requires 0 <= i < |s.moves| =>
      MinValueOf(s.moves[i].next, me))
  }

  /** `MaxValueOf` of every successor of `s`, in enumeration order. */
  function MaxValuesOfMoves(s: State, me: Player): (r: seq<int>)
    ensures |r| == |s.moves| && InIntRange(r)
    decreases s, 0
  {
    seq(|s.moves|, i requires 0 <= i < |s.moves| =>
      MaxValueOf(s.moves[i].next, me))
  }

  method MaxValue(s: State, me: Player) returns (v: int)
    ensures v == MaxValueOf(s, me)
    decreases s
  {
    if TerminalTest(s) {
      return Utility(s, me);
    }
    ghost var replies := MinValuesOfMoves(s, me);
    v := IntMin;
    for i := 0 to |s.moves|
      invariant v == Maximum(replies[..i])
    {
      var w := MinValue(s.moves[i].next, me);
      FoldStep(replies, i);
      v := Max(v, w);
    }
    assert replies[..|s.moves|] == replies;
  }

  method MinValue(s: State, me: Player) returns (v: int)
    ensures v == MinValueOf(s, me)
    decreases s
  {
    if TerminalTest(s) {
      return Utility(s, me);
    }
    ghost var replies := MaxValuesOfMoves(s, me);
    v := IntMax;
    for i := 0 to |s.moves|
      invariant v == Minimum(replies[..i])
    {
      var w := MaxValue(s.moves[i].next, me);
      FoldStep(replies, i);
      v := Min(v, w);
    }
    assert replies[..|s.moves|] == replies;
  }

  /**
   * The move the player in turn at `s` plays: none when there is no legal move,
   * otherwise the last legal move whose successor has the greatest minimax value.
   */
  method Decision(s: State) returns (move: Option<Position>)
    ensures move == Choice(s.moves, MinValuesOfMoves(s, s.turn))
  {
    var me := s.turn;
    ghost var scores := MinValuesOfMoves(s, me);
    move := None;
    var maxValue := IntMin;
    for i := 0 to |s.moves|
      invariant i == 0 ==> move == None && maxValue == IntMin
      invariant i > 0 ==> var k := LastBestIndex(scores[..i]);
        move == Some(s.moves[k].pos) && maxValue == scores[k]
    {
      var val := MinValue(s.moves[i].next, me);
      if i > 0 {
        LastBestStep(scores, i);
      }
      if val >= maxValue {
        maxValue := val;
        move := Some(s.moves[i].pos);
      }
    }
    assert scores[..|s.moves|] == scores;
  }

  /**
   * At a finished state both values are the utility and the successors are never
   * consulted: replacing them changes nothing.
   */
  lemma FinishedIsUtility(s: State, me: Player, other: seq<Move>)
    requires TerminalTest(s)
    ensures MaxValueOf(s, me) == Utility(s, me) == MinValueOf(s, me)
    ensures MaxValueOf(s.(moves := other), me) == MaxValueOf(s, me)
    ensures MinValueOf(s.(moves := other), me) == MinValueOf(s, me)
  {
  }

  /**
   * At an unfinished state the max value is the greatest min value of a successor,
   * and `IntMin` when there is no legal move.
   */
  lemma MaxValueIsBestReply(s: State, me: Player)
    requires !TerminalTest(s)
    ensures forall i :: 0 <= i < |s.moves| ==> MinValueOf(s.moves[i].next, me) <= MaxValueOf(s, me)
    ensures |s.moves| == 0 ==> MaxValueOf(s, me) == IntMin
    ensures |s.moves| > 0 ==>
      exists i :: 0 <= i < |s.moves| && MinValueOf(s.moves[i].next, me) == MaxValueOf(s, me)
  {
    var replies := MinValuesOfMoves(s, me);
    assert forall i :: 0 <= i < |s.moves| ==> replies[i] == MinValueOf(s.moves[i].next, me);
    FoldsInRange(replies);
    MaximumIsLargest(replies);
    if |s.moves| > 0 {
      var i :| 0 <= i < |replies| && replies[i] == Maximum(replies);
      assert MinValueOf(s.moves[i].next, me) == MaxValueOf(s, me);
    }
  }

  /**
   * At an unfinished state the min value is the least max value of a successor,
   * and `IntMax` when there is no legal move.
   */
  lemma MinValueIsBestReply(s: State, me: Player)
    requires !TerminalTest(s)
    ensures forall i :: 0 <= i < |s.moves| ==> MinValueOf(s, me) <= MaxValueOf(s.moves[i].next, me)
    ensures |s.moves| == 0 ==> MinValueOf(s, me) == IntMax
    ensures |s.moves| > 0 ==>
      exists i :: 0 <= i < |s.moves| && MaxValueOf(s.moves[i].next, me) == MinValueOf(s, me)
  {
    var replies := MaxValuesOfMoves(s, me);
    assert forall i :: 0 <= i < |s.moves| ==> replies[i] == MaxValueOf(s.moves[i].next, me);
    FoldsInRange(replies);
    MinimumIsSmallest(replies);
    if |s.moves| > 0 {
      var i :| 0 <= i < |replies| && replies[i] == Minimum(replies);
      assert MaxValueOf(s.moves[i].next, me) == MinValueOf(s, me);
    }
  }

  /** Every unfinished state in the tree below `s` has at least one legal move. */
  predicate NoDeadEnds(s: State)
    decreases s
  {
    && (!TerminalTest(s) ==> |s.moves| > 0)
    && forall i :: 0 <= i < |s.moves| ==> NoDeadEnds(s.moves[i].next)
  }

  /**
   * When no unfinished state is stuck without a move, the search never returns a
   * seed value: every minimax value is a game outcome, -1, 0 or 1.
   */
  lemma {:induction false} ValuesAreOutcomes(s: State, me: Player)
    requires NoDeadEnds(s)
    ensures MaxValueOf(s, me) in {-1, 0, 1} && MinValueOf(s, me) in {-1, 0, 1}
    decreases s
  {
    if !TerminalTest(s) {
      forall i | 0 <= i < |s.moves|
        ensures MinValueOf(s.moves[i].next, me) in {-1, 0, 1}
        ensures MaxValueOf(s.moves[i].next, me) in {-1, 0, 1}
      {
        ValuesAreOutcomes(s.moves[i].next, me);
      }
      MaxValueIsBestReply(s, me);
      MinValueIsBestReply(s, me);
    } else {
      UtilityAntisymmetric(s, me);
    }
  }
}
