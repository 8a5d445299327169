# Adversarial search for Othello, modelled in Dafny

This project models the three move-selection algorithms of a Java Othello AI:

- plain minimax (`src/MINIMAX.java`);
- minimax with alpha-beta pruning (`src/MINIMAXAB.java`);
- depth-limited heuristic minimax with alpha-beta pruning and a static corner/border evaluator (`src/HMINIMAX.java`).

All three consume a game-state oracle. It answers four questions: whose turn it is, whether the game is finished, how many tokens each player holds, and which board and legal moves the position has. Here that oracle is a finite game tree, `GameTree.State`. Each node records:

- the player in turn;
- the finished flag;
- both token counts;
- the square board;
- in enumeration order, the legal positions, each paired with the successor state that `result` would build.

The player the search is run for (the Java `static thisPlayer`) is passed explicitly as `me`.

Modules:

- `GameTree`: the tree, the Java `int` bounds, the terminal test and the three-valued utility. The utility is identical in all three source files and is defined once.
- `Scores`:
  - the running `Math.max` / `Math.min` folds, seeded with `Integer.MIN_VALUE` / `Integer.MAX_VALUE`;
  - the drivers' best-move rule: `>=`, so the last of equally good moves wins;
  - the fail-soft window contract of alpha-beta search.
- `Minimax`: the minimax values as recursive functions. `maxValue`, `minValue` and `decision` are methods whose loops are proved to compute them.
- `MinimaxAB`: the pruned search as methods, proved fail-soft against the minimax values. The root driver uses the full window for every move, so it is proved to return exactly the move plain minimax returns.
- `HMinimax`:
  - the evaluator, as a method over the board proved against a function;
  - the depth-limited values as functions;
  - the pruned depth-limited search, proved fail-soft against them;
  - lemmas on what the cutoff means: only the first six plies matter, and when every game ends within six plies of the root the choice is that of plain minimax.

Choices of the code that the model keeps:

- With no legal move, the three search drivers return `null`, modelled as `None`. The random players in `src/DumAI.java` and `src/RandomAI.java` answer `Position(-1,-1)` instead; they are not part of this model.
- The evaluator's border loops run `i < n-2`. So only the border cells at index 1 .. n-3 carry weight, and the border cells at index n-2 count nothing. `HMinimax.ScoreOfSetCell` and `HMinimax.EvalIgnoresUnweightedCells` state this.
- The evaluator collapses its weighted sum to its sign, -1, 0 or 1.
- The drivers break ties with `>=`, keeping the last maximal move.

## Model

| member | source | states |
|---|---|---|
| GameTree.Utility | src/MINIMAX.java:58-64 | the utility is 0 exactly when both players hold as many tokens, 1 exactly when `me` holds more, -1 exactly when `me` holds fewer (identical copies at src/MINIMAXAB.java:66-72 and src/HMINIMAX.java:118-124) |
| GameTree.TerminalTest | src/MINIMAX.java:54-56 | a state is terminal exactly when the oracle reports the game finished (identical copies at src/MINIMAXAB.java:62-64 and src/HMINIMAX.java:68-70); what the searches do there is stated by `Minimax.FinishedIsUtility` and the search methods |
| GameTree.UtilityAntisymmetric | src/MINIMAX.java:59-63 | swapping the point of view negates the utility, which always lies in -1 .. 1 |
| Scores.Maximum | src/MINIMAX.java:35-38 | the value of `v = Integer.MIN_VALUE; v = Math.max(v, x)` over the scores in order; characterised by `Scores.MaximumIsLargest` |
| Scores.Minimum | src/MINIMAX.java:46-49 | the value of `v = Integer.MAX_VALUE; v = Math.min(v, x)` over the scores in order; characterised by `Scores.MinimumIsSmallest` |
| Scores.MaximumIsLargest | src/MINIMAX.java:35-38 | the `Math.max` fold seeded with `Integer.MIN_VALUE` is at least the seed, bounds every score from above, and is either the seed or one of the scores |
| Scores.MinimumIsSmallest | src/MINIMAX.java:46-49 | the `Math.min` fold seeded with `Integer.MAX_VALUE` is at most the seed, bounds every score from below, and is either the seed or one of the scores |
| Scores.FoldsInRange | src/MINIMAX.java:35-51 | folding Java `int` scores yields a Java `int`, and a non-empty fold is one of the scores |
| Scores.FoldStep | src/MINIMAX.java:37 | one loop iteration extends the fold over a prefix by the next score |
| Scores.PrefixWithinFold | src/MINIMAXAB.java:39-41 | a fold stopped early (a cutoff) never passes the fold over all successors: at most it for max, at least it for min |
| Scores.FirstAtLeast | src/MINIMAXAB.java:38-43 | how many successors a max node examines: up to the first whose running max reaches `beta`, else all; characterised by `Scores.FirstAtLeastIsFirst` |
| Scores.FirstAtLeastIsFirst | src/MINIMAXAB.java:38-43 | that count is the length of the shortest non-empty prefix whose max reaches `beta`: every shorter prefix stays below `beta`, and it is all successors when none reaches it |
| Scores.FirstAtLeastStep | src/MINIMAXAB.java:41 | after one more child, the fail-soft running value is at least `beta` exactly when the loop stops at that child |
| Scores.FirstAtMost | src/MINIMAXAB.java:52-57 | how many successors a min node examines: up to the first whose running min falls to `alpha`, else all; characterised by `Scores.FirstAtMostIsFirst` |
| Scores.FirstAtMostIsFirst | src/MINIMAXAB.java:52-57 | that count is the length of the shortest non-empty prefix whose min falls to `alpha`: every shorter prefix stays above `alpha`, and it is all successors when none falls to it |
| Scores.FirstAtMostStep | src/MINIMAXAB.java:55 | after one more child, the fail-soft running value is at most `alpha` exactly when the loop stops at that child |
| Scores.MaxNodeStep | src/MINIMAXAB.java:38-43 | one iteration of a max node: the running value stays fail-soft for the children seen, decides the cutoff correctly, and a cutoff value is fail-soft for all children |
| Scores.MinNodeStep | src/MINIMAXAB.java:52-57 | one iteration of a min node, symmetric to `Scores.MaxNodeStep` |
| Scores.LastBestIndex | src/MINIMAX.java:14-21 | the index the `>=` update keeps is maximal and every later score is strictly smaller |
| Scores.LastBestStep | src/MINIMAX.java:17-20 | one loop iteration: a score at least as good as the best so far takes over, otherwise the best index stays |
| Scores.LastBestUnique | src/MINIMAX.java:17-20 | at most one index is the last maximal one, so the tie-break determines the move |
| Scores.Choice | src/MINIMAX.java:11-23 | the driver's result is `None` exactly when there is no legal move, otherwise the position of the last maximal successor |
| Scores.SingleMoveChosen | src/MINIMAX.java:14-23 | with one legal move the driver plays it, whatever its score |
| Scores.FullWindowExact | src/MINIMAXAB.java:17 | a fail-soft value for the window (`Integer.MIN_VALUE`, `Integer.MAX_VALUE`) of an `int` score is that score |
| Scores.MaxStepFailSoft | src/MINIMAXAB.java:38-44 | one max-node iteration, searching the child in (max(alpha, v), beta), keeps the running value fail-soft against the fold of the children seen |
| Scores.MinStepFailSoft | src/MINIMAXAB.java:52-58 | one min-node iteration, searching the child in (alpha, min(beta, v)), keeps the running value fail-soft against the fold of the children seen |
| Minimax.MaxValueOf | src/MINIMAX.java:32-41 | the max value of a state is a Java `int` |
| Minimax.MinValueOf | src/MINIMAX.java:43-52 | the min value of a state is a Java `int` |
| Minimax.MinValuesOfMoves | src/MINIMAX.java:36-38 | one min value per legal move, in enumeration order, each a Java `int` |
| Minimax.MaxValuesOfMoves | src/MINIMAX.java:47-49 | one max value per legal move, in enumeration order, each a Java `int` |
| Minimax.MaxValue | src/MINIMAX.java:32-41 | the loop computes the max value of the state |
| Minimax.MinValue | src/MINIMAX.java:43-52 | the loop computes the min value of the state |
| Minimax.Decision | src/MINIMAX.java:8-24 | the driver returns `Choice` of the successors' min values: `None` without a legal move, else the last best move |
| Minimax.FinishedIsUtility | src/MINIMAX.java:32-44 | at a finished state both values are the utility, and they do not depend on the successors |
| Minimax.MaxValueIsBestReply | src/MINIMAX.java:35-40 | at an unfinished state the max value is the greatest successor min value, attained by some move, and `Integer.MIN_VALUE` when there is no move |
| Minimax.MinValueIsBestReply | src/MINIMAX.java:46-51 | at an unfinished state the min value is the least successor max value, attained by some move, and `Integer.MAX_VALUE` when there is no move |
| Minimax.ValuesAreOutcomes | src/MINIMAX.java:32-52 | when no unfinished state below lacks a move, every value is -1, 0 or 1 |
| MinimaxAB.MaxValue | src/MINIMAXAB.java:34-46 | the pruned value is fail-soft against the minimax max value; a finished state returns the utility without expanding; successors are skipped only after a beta cutoff, and then the value is at least beta; `examined` is exactly `FirstAtLeast` of the successors' minimax values, so the loop returns at the first child whose running max reaches beta |
| MinimaxAB.MinValue | src/MINIMAXAB.java:48-60 | the pruned value is fail-soft against the minimax min value; a finished state returns the utility without expanding; successors are skipped only after an alpha cutoff, and then the value is at most alpha; `examined` is exactly `FirstAtMost` of the successors' minimax values, so the loop returns at the first child whose running min falls to alpha |
| MinimaxAB.AlphaBetaSearch | src/MINIMAXAB.java:10-26 | the driver returns exactly the move plain minimax's `decision` returns |
| HMinimax.CutoffTest | src/HMINIMAX.java:63-66 | the search stops at a finished state or at depth 6 or more; the search methods state that it then returns `eval` without expanding |
| HMinimax.Weighted | src/HMINIMAX.java:90-93 | what one weighted cell adds: nothing when empty, the weight when `me` holds it, minus the weight otherwise |
| HMinimax.CornerScore | src/HMINIMAX.java:89-93 | the sum the four corner statements add, weight 4 each |
| HMinimax.ColumnsScore | src/HMINIMAX.java:96-99 | what the column loop adds after k - 1 iterations: the left and right cells of rows 1 .. k-1, weight 2 each |
| HMinimax.RowsScore | src/HMINIMAX.java:102-105 | what the row loop adds after k - 1 iterations: the top and bottom cells of columns 1 .. k-1, weight 2 each |
| HMinimax.BorderScore | src/HMINIMAX.java:89-105 | the sum `eval` holds before it collapses it: corners plus both loops up to `n-2` |
| HMinimax.CellWeight | src/HMINIMAX.java:85-86 | the weight of a cell: 4 at a corner, 2 on the border at index 1 .. n-3, 0 elsewhere; tied to the sum by `HMinimax.ScoreOfSetCell` |
| HMinimax.Sign | src/HMINIMAX.java:107-110 | the collapse of the sum to 1, -1 or 0 |
| HMinimax.EvalOf | src/HMINIMAX.java:79-111 | the evaluation lies in -1 .. 1; it is the utility at a finished state, otherwise 1 exactly when the weighted border sum is positive and -1 exactly when it is negative |
| HMinimax.Eval | src/HMINIMAX.java:79-111 | the corner statements and the two border loops compute `EvalOf` |
| HMinimax.ColumnsScoreOfSetCell | src/HMINIMAX.java:96-99 | changing one cell moves the column sum up to row k by the cell's edge weight exactly when it lies in the left or right column at a row in 1 .. k-1 |
| HMinimax.RowsScoreOfSetCell | src/HMINIMAX.java:102-105 | changing one cell moves the row sum up to column k by the cell's edge weight exactly when it lies in the top or bottom row at a column in 1 .. k-1 |
| HMinimax.ScoreOfSetCell | src/HMINIMAX.java:85-105 | every cell adds its `CellWeight` (4 for a corner, 2 for a border cell at index 1 .. n-3, 0 otherwise) if `me` holds it, subtracts it if the opponent does, and adds nothing if empty |
| HMinimax.EvalIgnoresUnweightedCells | src/HMINIMAX.java:96-105 | rewriting an interior cell, or a border cell at index n-2, never changes the evaluation of an unfinished state |
| HMinimax.EmptyColumnsAndRows | src/HMINIMAX.java:96-105 | on an empty board the border loops add nothing |
| HMinimax.EmptyBoardIsNeutral | src/HMINIMAX.java:89-110 | an unfinished state with an empty board evaluates to 0 |
| HMinimax.Horizon | src/HMINIMAX.java:9 | the number of plies still expanded below a state reached at depth d: 6 - d, and 0 from depth 6 on |
| HMinimax.HMaxValueOf | src/HMINIMAX.java:36-47 | the depth-limited max value is a Java `int` |
| HMinimax.HMinValueOf | src/HMINIMAX.java:49-61 | the depth-limited min value is a Java `int` |
| HMinimax.HMinValuesOfMoves | src/HMINIMAX.java:41-43 | one depth-limited min value per legal move, in enumeration order, each a Java `int` |
| HMinimax.HMaxValuesOfMoves | src/HMINIMAX.java:54-56 | one depth-limited max value per legal move, in enumeration order, each a Java `int` |
| HMinimax.MaxValue | src/HMINIMAX.java:36-47 | the pruned value is fail-soft against the depth-limited max value; at a cutoff (finished, or depth at least 6) it is `eval` without expansion; the termination measure `Horizon(d)` makes Dafny prove that the recursion below depth d is at most 6 - d calls deep, so no state at depth 6 or more is expanded; `examined` is exactly `FirstAtLeast` of the successors' depth-limited values, so the loop returns at the first child whose running max reaches beta |
| HMinimax.MinValue | src/HMINIMAX.java:49-61 | the pruned value is fail-soft against the depth-limited min value; at a cutoff it is `eval` without expansion; the termination measure `Horizon(d)` bounds the recursion below depth d by 6 - d calls; `examined` is exactly `FirstAtMost` of the successors' depth-limited values, so the loop returns at the first child whose running min falls to alpha |
| HMinimax.Decision | src/HMINIMAX.java:13-28 | the driver returns `Choice` of the successors' depth-limited min values, searched from depth 1 with the full window |
| HMinimax.ValueWithinHorizon | src/HMINIMAX.java:36-66 | a state reached at depth d has the same depth-limited values as any state that agrees with it for the 6 - d plies below it |
| HMinimax.RepliesWithinHorizon | src/HMINIMAX.java:41-43 | the successors of two such states have equal depth-limited values |
| HMinimax.DecisionWithinHorizon | src/HMINIMAX.java:13-28 | `decision` depends only on the first 6 plies of the game tree |
| HMinimax.AgreesWithMinimax | src/HMINIMAX.java:63-66 | when every line of play from a state at depth d finishes within 6 - d plies, the depth-limited values are the plain minimax values |
| HMinimax.DecisionAgreesWithMinimax | src/HMINIMAX.java:13-28 | when every game finishes within 6 plies of the root, `decision` chooses the move plain minimax chooses |

## Left out

- The game-state oracle's internals are not part of this model. These are the Othello capture rules, `insertToken`, `legalMoves`, `isFinished`, `countTokens` and the board copy in the `GameState` constructor. The game tree takes their answers as given.
- `result` builds a fresh successor. Whether that copy avoids aliasing the parent's board depends on the `GameState` constructor, which is not part of this model. Successors are values here, and nothing is claimed about aliasing.
- The driver of the depth-limited search and the two other players are not part of this model. These are `src/SmarterAI.java`, `src/RandomAI.java` and `src/DumAI.java`. They consist of console output, wall-clock timing, floating-point statistics and random choice.
- `thisPlayer` is a mutable `static` field in the source. It is passed as the parameter `me` instead; there is no concurrency to model.
- Performance (node counts, timing) is not modelled beyond the ghost count of examined successors and the recursion-depth bound.
- HMinimax.Eval: the Java `int` sum is not wrapped at 32 bits. It only could overflow on boards with hundreds of millions of rows.
- Boards are non-empty and square (`GameTree.Board`). On an empty board `eval` would throw at src/HMINIMAX.java:90, and a ragged board could throw in the loops; an Othello board is never either.
- HMinimax.ScoreOfSetCell: stated for boards of size at least 2. On a 1 by 1 board the single cell is read as all four corners, which the model also does in `CornerScore`.
- MinimaxAB.MaxValue: requires `IntMin <= alpha < beta <= IntMax`, as do MinimaxAB.MinValue, HMinimax.MaxValue and HMinimax.MinValue. The source only ever calls them with such a window: the drivers open with the full `int` window, and the proofs show every recursive call keeps it non-empty.
