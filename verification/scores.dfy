/**
 * The score bookkeeping the three searches share: the running `Math.max` / `Math.min`
 * folds seeded with the Java `int` bounds, the best-move rule of the drivers
 * (`>=`, so the last of several equally good moves wins), and the fail-soft window
 * contract that alpha-beta search meets.
 */
module Scores {
  import opened GameTree

  function Max(a: int, b: int): int { if a >= b then a else b }

  function Min(a: int, b: int): int { if a <= b then a else b }

  /**
   * `v = Integer.MIN_VALUE; for each x: v = Math.max(v, x)`: the largest score, or
   * `IntMin` when there is none.
   */
  function Maximum(xs: seq<int>): int
  {
    if xs == [] then IntMin else Max(Maximum(xs[..|xs| - 1]), xs[|xs| - 1])
  }

  /** The fold is an upper bound of the scores and, unless it is the seed, one of them. */
  lemma {:induction false} MaximumIsLargest(xs: seq<int>)
    ensures IntMin <= Maximum(xs)
    ensures forall i :: 0 <= i < |xs| ==> xs[i] <= Maximum(xs)
    ensures Maximum(xs) == IntMin || exists i :: 0 <= i < |xs| && xs[i] == Maximum(xs)
  {
    if xs != [] {
      var p := xs[..|xs| - 1];
      MaximumIsLargest(p);
      assert forall i :: 0 <= i < |p| ==> xs[i] == p[i];
    }
  }

  /**
   * `v = Integer.MAX_VALUE; for each x: v = Math.min(v, x)`: the smallest score, or
   * `IntMax` when there is none.
   */
  function Minimum(xs: seq<int>): int
  {
    if xs == [] then IntMax else Min(Minimum(xs[..|xs| - 1]), xs[|xs| - 1])
  }

  /** The fold is a lower bound of the scores and, unless it is the seed, one of them. */
  lemma {:induction false} MinimumIsSmallest(xs: seq<int>)
    ensures Minimum(xs) <= IntMax
    ensures forall i :: 0 <= i < |xs| ==> Minimum(xs) <= xs[i]
    ensures Minimum(xs) == IntMax || exists i :: 0 <= i < |xs| && xs[i] == Minimum(xs)
  {
    if xs != [] {
      var p := xs[..|xs| - 1];
      MinimumIsSmallest(p);
      assert forall i :: 0 <= i < |p| ==> xs[i] == p[i];
    }
  }

  predicate InIntRange(xs: seq<int>)
  {
    forall i :: 0 <= i < |xs| ==> IntMin <= xs[i] <= IntMax
  }

  /** Scores that are Java `int`s fold to a Java `int`, and a non-empty fold is one of them. */
  lemma FoldsInRange(xs: seq<int>)
    requires InIntRange(xs)
    ensures IntMin <= Maximum(xs) <= IntMax && IntMin <= Minimum(xs) <= IntMax
    ensures xs != [] ==> Maximum(xs) in xs && Minimum(xs) in xs
  {
    MaximumIsLargest(xs);
    MinimumIsSmallest(xs);
    if xs != [] {
      assert xs[0] <= Maximum(xs) && Minimum(xs) <= xs[0];
    }
  }

  /** One step of a loop that folds `xs` from the left. */
  lemma FoldStep(xs: seq<int>, i: int)
    requires 0 <= i < |xs|
    ensures Maximum(xs[..i + 1]) == Max(Maximum(xs[..i]), xs[i])
    ensures Minimum(xs[..i + 1]) == Min(Minimum(xs[..i]), xs[i])
  {
    assert xs[..i + 1][..i] == xs[..i];
  }

  /** A fold over a prefix never passes the fold over the whole sequence. */
  lemma PrefixWithinFold(xs: seq<int>, k: int)
    requires 0 <= k <= |xs|
    ensures Maximum(xs[..k]) <= Maximum(xs)
    ensures Minimum(xs) <= Minimum(xs[..k])
  {
    var p := xs[..k];
    MaximumIsLargest(xs);
    MaximumIsLargest(p);
    MinimumIsSmallest(xs);
    MinimumIsSmallest(p);
    if Maximum(p) != IntMin {
      var j :| 0 <= j < |p| && p[j] == Maximum(p);
      assert xs[j] == p[j];
    }
    if Minimum(p) != IntMax {
      var j :| 0 <= j < |p| && p[j] == Minimum(p);
      assert xs[j] == p[j];
    }
  }

  /**
   * How many of the scores `xs` a maximising node examines once the first `i` are
   * known not to reach `beta`: it stops at the first prefix whose maximum reaches
   * `beta`, or after all of them.
   */
  function FirstAtLeast(xs: seq<int>, beta: int, i: nat): nat
    requires i <= |xs|
    decreases |xs| - i
  {
    if i == |xs| then i
    else if beta <= Maximum(xs[..i + 1]) then i + 1
    else FirstAtLeast(xs, beta, i + 1)
  }

  /** `FirstAtLeast` is the length of the shortest prefix past `i` whose maximum reaches `beta`, else `|xs|`. */
  lemma {:induction false} FirstAtLeastIsFirst(xs: seq<int>, beta: int, i: nat)
    requires i <= |xs|
    ensures var k := FirstAtLeast(xs, beta, i);
      && i <= k <= |xs| && (i < |xs| ==> i < k)
      && (forall j :: i < j < k ==> Maximum(xs[..j]) < beta)
      && (k == |xs| || beta <= Maximum(xs[..k]))
    decreases |xs| - i
  {
    if i < |xs| && Maximum(xs[..i + 1]) < beta {
      FirstAtLeastIsFirst(xs, beta, i + 1);
    }
  }

  /** One step of a maximising loop: its running value `v`, fail-soft for the first `i + 1` scores, decides whether to stop. */
  lemma FirstAtLeastStep(xs: seq<int>, v: int, alpha: int, beta: int, i: nat)
    requires i < |xs| && alpha < beta
    requires FailSoft(v, Maximum(xs[..i + 1]), alpha, beta)
    ensures beta <= v ==> FirstAtLeast(xs, beta, i) == i + 1
    ensures v < beta ==> FirstAtLeast(xs, beta, i) == FirstAtLeast(xs, beta, i + 1)
  {
  }

  /**
   * How many of the scores `xs` a minimising node examines once the first `i` are
   * known to stay above `alpha`: it stops at the first prefix whose minimum falls to
   * `alpha`, or after all of them.
   */
  function FirstAtMost(xs: seq<int>, alpha: int, i: nat): nat
    requires i <= |xs|
    decreases |xs| - i
  {
    if i == |xs| then i
    else if Minimum(xs[..i + 1]) <= alpha then i + 1
    else FirstAtMost(xs, alpha, i + 1)
  }

  /** `FirstAtMost` is the length of the shortest prefix past `i` whose minimum falls to `alpha`, else `|xs|`. */
  lemma {:induction false} FirstAtMostIsFirst(xs: seq<int>, alpha: int, i: nat)
    requires i <= |xs|
    ensures var k := FirstAtMost(xs, alpha, i);
      && i <= k <= |xs| && (i < |xs| ==> i < k)
      && (forall j :: i < j < k ==> alpha < Minimum(xs[..j]))
      && (k == |xs| || Minimum(xs[..k]) <= alpha)
    decreases |xs| - i
  {
    if i < |xs| && alpha < Minimum(xs[..i + 1]) {
      FirstAtMostIsFirst(xs, alpha, i + 1);
    }
  }

  /** One step of a minimising loop: its running value `v`, fail-soft for the first `i + 1` scores, decides whether to stop. */
  lemma FirstAtMostStep(xs: seq<int>, v: int, alpha: int, beta: int, i: nat)
    requires i < |xs| && alpha < beta
    requires FailSoft(v, Minimum(xs[..i + 1]), alpha, beta)
    ensures v <= alpha ==> FirstAtMost(xs, alpha, i) == i + 1
    ensures alpha < v ==> FirstAtMost(xs, alpha, i) == FirstAtMost(xs, alpha, i + 1)
  {
  }

  /**
   * One iteration of a maximising node's loop over the true successor values `xs`:
   * the child searched in (max(alpha, v), beta) returned `w`. The new running value
   * stays fail-soft, and it decides correctly whether the loop stops here.
   */
  lemma MaxNodeStep(xs: seq<int>, v: int, w: int, alpha: int, beta: int, i: nat)
    requires i < |xs| && alpha < beta && v < beta
    requires FailSoft(v, Maximum(xs[..i]), alpha, beta)
    requires FailSoft(w, xs[i], Max(alpha, v), beta)
    ensures FailSoft(Max(v, w), Maximum(xs[..i + 1]), alpha, beta)
    ensures beta <= Max(v, w) ==> FirstAtLeast(xs, beta, i) == i + 1 && Maximum(xs[..i + 1]) <= Maximum(xs)
    ensures Max(v, w) < beta ==> FirstAtLeast(xs, beta, i) == FirstAtLeast(xs, beta, i + 1)
  {
    FoldStep(xs, i);
    MaxStepFailSoft(v, Maximum(xs[..i]), w, xs[i], alpha, beta);
    FirstAtLeastStep(xs, Max(v, w), alpha, beta, i);
    PrefixWithinFold(xs, i + 1);
  }

  /** One iteration of a minimising node's loop, symmetric to `MaxNodeStep`. */
  lemma MinNodeStep(xs: seq<int>, v: int, w: int, alpha: int, beta: int, i: nat)
    requires i < |xs| && alpha < beta && alpha < v
    requires FailSoft(v, Minimum(xs[..i]), alpha, beta)
    requires FailSoft(w, xs[i], alpha, Min(beta, v))
    ensures FailSoft(Min(v, w), Minimum(xs[..i + 1]), alpha, beta)
    ensures Min(v, w) <= alpha ==> FirstAtMost(xs, alpha, i) == i + 1 && Minimum(xs) <= Minimum(xs[..i + 1])
    ensures alpha < Min(v, w) ==> FirstAtMost(xs, alpha, i) == FirstAtMost(xs, alpha, i + 1)
  {
    FoldStep(xs, i);
    MinStepFailSoft(v, Minimum(xs[..i]), w, xs[i], alpha, beta);
    FirstAtMostStep(xs, Min(v, w), alpha, beta, i);
    PrefixWithinFold(xs, i + 1);
  }

  /** `i` is the last index whose score is maximal. */
  predicate IsLastBest(scores: seq<int>, i: int)
  {
    && 0 <= i < |scores|
    && (forall j :: 0 <= j < |scores| ==> scores[j] <= scores[i])
    && (forall j :: i < j < |scores| ==> scores[j] < scores[i])
  }

  /** The index the drivers' `if (val >= max_value)` ends up keeping. */
  function LastBestIndex(scores: seq<int>): (i: nat)
    requires |scores| > 0
    ensures IsLastBest(scores, i)
  {
    if |scores| == 1 then 0
    else
      var k := LastBestIndex(scores[..|scores| - 1]);
      if scores[|scores| - 1] >= scores[k] then |scores| - 1 else k
  }

  /** One step of the drivers' loop: a score at least as good as the best so far takes over. */
  lemma LastBestStep(scores: seq<int>, i: int)
    requires 0 < i < |scores|
    ensures LastBestIndex(scores[..i + 1])
      == if scores[i] >= scores[LastBestIndex(scores[..i])] then i else LastBestIndex(scores[..i])
  {
    assert scores[..i + 1][..i] == scores[..i];
  }

  /** There is exactly one last maximal index, so the tie-break rule determines the move. */
  lemma LastBestUnique(scores: seq<int>, i: int, j: int)
    requires IsLastBest(scores, i) && IsLastBest(scores, j)
    ensures i == j
  {
    assert scores[i] <= scores[j] && scores[j] <= scores[i];
  }

  /**
   * The move a driver returns when the legal moves, in enumeration order, score
   * `scores`: none when there are no moves, otherwise the last maximal one.
   */
  function Choice(moves: seq<Move>, scores: seq<int>): (r: Option<Position>)
    requires |scores| == |moves|
    ensures r == None <==> moves == []
    ensures r.Some? ==> exists i :: IsLastBest(scores, i) && r.value == moves[i].pos
  {
    if moves == [] then None else Some(moves[LastBestIndex(scores)].pos)
  }

  /** With exactly one legal move every driver plays it, whatever it scores. */
  lemma SingleMoveChosen(moves: seq<Move>, scores: seq<int>)
    requires |moves| == 1 && |scores| == 1
    ensures Choice(moves, scores) == Some(moves[0].pos)
  {
  }

  /**
   * The fail-soft alpha-beta contract relating a searched value `v` to the true value
   * `m` for the window (`alpha`, `beta`): exact inside the window, and outside it on
   * the correct side of the window and no further from it than `m`.
   */
  predicate FailSoft(v: int, m: int, alpha: int, beta: int)
  {
    && (m <= alpha ==> m <= v <= alpha)
    && (alpha < m < beta ==> v == m)
    && (beta <= m ==> beta <= v <= m)
  }

  /** Searching with the full `int` window yields the true value of a Java `int` score. */
  lemma FullWindowExact(v: int, m: int)
    requires IntMin <= m <= IntMax
    requires FailSoft(v, m, IntMin, IntMax)
    ensures v == m
  {
  }

  /** A maximising node's loop step: the running value stays fail-soft for the prefix seen. */
  lemma MaxStepFailSoft(v: int, m: int, f: int, mc: int, alpha: int, beta: int)
    requires alpha < beta && v < beta
    requires FailSoft(v, m, alpha, beta)
    requires FailSoft(f, mc, Max(alpha, v), beta)
    ensures FailSoft(Max(v, f), Max(m, mc), alpha, beta)
  {
  }

  /** A minimising node's loop step, symmetric to `MaxStepFailSoft`. */
  lemma MinStepFailSoft(v: int, m: int, f: int, mc: int, alpha: int, beta: int)
    requires alpha < beta && alpha < v
    requires FailSoft(v, m, alpha, beta)
    requires FailSoft(f, mc, alpha, Min(beta, v))
    ensures FailSoft(Min(v, f), Min(m, mc), alpha, beta)
  {
  }
}
