/**
 * The game-state oracle that the three Othello searches consume, abstracted as a
 * finite game tree, together with the pieces the three searches share: the Java
 * `int` bounds that seed the searches, the terminal test and the three-valued
 * utility of a finished game.
 */
module GameTree {

  /** The Java `Integer.MIN_VALUE` and `Integer.MAX_VALUE`; the searches only compare them. */
  const IntMin: int := -0x8000_0000
  const IntMax: int := 0x7fff_ffff

  /** A player id as `GameState.getPlayerInTurn` reports it: 1 (black) or 2 (white). */
  type Player = p: int | p == 1 || p == 2 witness 1

  /** The opponent of `p`. */
  function Other(p: Player): (q: Player)
    ensures q != p
  {
    if p == 1 then 2 else 1
  }

  /** A board coordinate. With no legal move the search drivers answer `None` (Java `null`), not a `Position(-1,-1)`. */
  datatype Position = Position(col: int, row: int)

  datatype Option<T> = None | Some(value: T)

  /** A square grid of cells: 0 is empty, any other value is the player that holds the cell. */
  predicate IsSquare(b: seq<seq<int>>)
  {
    |b| > 0 && forall i :: 0 <= i < |b| ==> |b[i]| == |b|
  }

  type Board = b: seq<seq<int>> | IsSquare(b) witness [[0]]

  /**
   * One node of the game tree: what a `GameState` answers when asked for the player
   * in turn, `isFinished`, `countTokens` and `getBoard`, and, in enumeration order,
   * the positions `legalMoves` yields, each paired with the state `result` builds.
   */
  datatype State = State(
    turn: Player,
    finished: bool,
    blackTokens: nat,
    whiteTokens: nat,
    board: Board,
    moves: seq<Move>)

  datatype Move = Move(pos: Position, next: State)

  /** The entry of `countTokens` that belongs to player `p`. */
  function TokenCount(s: State, p: Player): nat
  {
    if p == 1 then s.blackTokens else s.whiteTokens
  }

  predicate TerminalTest(s: State)
  {
    s.finished
  }

  /**
   * The outcome of the game at `s` for `me`: 1 when `me` holds more tokens than the
   * opponent, -1 when fewer, 0 on a tie.
   */
  function Utility(s: State, me: Player): (r: int)
    ensures r == 0 <==> TokenCount(s, me) == TokenCount(s, Other(me))
    ensures r == 1 <==> TokenCount(s, me) > TokenCount(s, Other(me))
    ensures r == -1 <==> TokenCount(s, me) < TokenCount(s, Other(me))
  {
    var other := Other(me);
    if TokenCount(s, me) == TokenCount(s, other) then 0
    else if TokenCount(s, me) > TokenCount(s, other) then 1
    else -1
  }

  /** Looking at the same finished game from the other side negates its outcome. */
  lemma UtilityAntisymmetric(s: State, me: Player)
    ensures Utility(s, Other(me)) == -Utility(s, me)
    ensures -1 <= Utility(s, me) <= 1
  {
    assert Other(Other(me)) == me;
  }
}
