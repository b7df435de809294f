/**
 * MancalaImp's `alphabeta`: fail-soft alpha-beta over the MancalaImp
 * rules with `utility` (the material evaluator) at the leaves. As written,
 * the cut-off test of a MAX node is skipped while its alpha is still
 * Integer.MIN_VALUE, and that of a MIN node while its beta is still
 * Integer.MAX_VALUE. A reference minimax over the same tree states what
 * the search computes.
 */
module ImpSearch {
  import opened Board
  import opened RuleEngine
  import opened Evaluation

  /** The child boards `children(state, step)` of MancalaImp, in order. */
  function Kids(b: Board, ply: Ply): (r: seq<ChildMove>)
    requires Playable(b)
    ensures AllPlayable(r)
  {
    KidsPlayable(ImpRules, ChildMove(-1, b), ply);
    ChildrenOf(ImpRules, ChildMove(-1, b), ply, false)
  }

  /** `alphabeta(state, depth, alpha, beta, step)`. */
  function AlphaBeta(b: Board, depth: nat, alpha: int, beta: int, ply: Ply): int
    requires Playable(b)
    decreases depth, 1
  {
    if Terminal(b) || depth == 0 then MaterialScore(b)
    else if ply == MaxStep then ABMax(Kids(b, MaxStep), 0, depth, alpha, beta, INT_MIN)
    else ABMin(Kids(b, MinStep), 0, depth, alpha, beta, INT_MAX)
  }

  /** The MAX loop from child k on, with the running alpha and value. */
  function ABMax(kids: seq<ChildMove>, k: nat, depth: nat, alpha: int, beta: int, value: int): int
    requires AllPlayable(kids) && k <= |kids| && depth >= 1
    decreases depth, 0, |kids| - k
  {
    if k == |kids| then value
    else
      assert kids[k] in kids;
      var v := Max(value, AlphaBeta(kids[k].state, depth - 1, alpha, beta, MinStep));
      if alpha != INT_MIN && Max(alpha, v) >= beta then v
      else ABMax(kids, k + 1, depth, Max(alpha, v), beta, v)
  }

  /** The MIN loop from child k on, with the running beta and value. */
  function ABMin(kids: seq<ChildMove>, k: nat, depth: nat, alpha: int, beta: int, value: int): int
    requires AllPlayable(kids) && k <= |kids| && depth >= 1
    decreases depth, 0, |kids| - k
  {
    if k == |kids| then value
    else
      assert kids[k] in kids;
      var v := Min(value, AlphaBeta(kids[k].state, depth - 1, alpha, beta, MaxStep));
      if beta != INT_MAX && alpha >= Min(beta, v) then v
      else ABMin(kids, k + 1, depth, alpha, Min(beta, v), v)
  }

  /** The reference: plain minimax over the same tree and leaves, without pruning. */
  function ImpMinimax(b: Board, depth: nat, ply: Ply): int
    requires Playable(b)
    decreases depth, 1
  {
    if Terminal(b) || depth == 0 then MaterialScore(b)
    else if ply == MaxStep then MaxOf(Kids(b, MaxStep), 0, depth, INT_MIN)
    else MinOf(Kids(b, MinStep), 0, depth, INT_MAX)
  }

  /** The largest of acc and the minimax values of children k.. for MIN. */
  function MaxOf(kids: seq<ChildMove>, k: nat, depth: nat, acc: int): int
    requires AllPlayable(kids) && k <= |kids| && depth >= 1
    decreases depth, 0, |kids| - k
  {
    if k == |kids| then acc
    else
      assert kids[k] in kids;
      MaxOf(kids, k + 1, depth, Max(acc, ImpMinimax(kids[k].state, depth - 1, MinStep)))
  }

  /** The smallest of acc and the minimax values of children k.. for MAX. */
  function MinOf(kids: seq<ChildMove>, k: nat, depth: nat, acc: int): int
    requires AllPlayable(kids) && k <= |kids| && depth >= 1
    decreases depth, 0, |kids| - k
  {
    if k == |kids| then acc
    else
      assert kids[k] in kids;
      MinOf(kids, k + 1, depth, Min(acc, ImpMinimax(kids[k].state, depth - 1, MaxStep)))
  }

  /** The minimax value of child j, searched for the other side. */
  function KidValue(kids: seq<ChildMove>, j: int, depth: nat, ply: Ply): int
    requires AllPlayable(kids) && 0 <= j < |kids| && depth >= 1
  {
    assert kids[j] in kids;
    ImpMinimax(kids[j].state, depth - 1, ply.Other())
  }

  /**
   * The MAX fold is the maximum: at least acc and every child's value,
   * and equal to acc or to one of them.
   */
  lemma {:induction false} MaxOfSpec(kids: seq<ChildMove>, k: nat, depth: nat, acc: int)
    requires AllPlayable(kids) && k <= |kids| && depth >= 1
    ensures acc <= MaxOf(kids, k, depth, acc)
    ensures forall j :: k <= j < |kids| ==> KidValue(kids, j, depth, MaxStep) <= MaxOf(kids, k, depth, acc)
    ensures MaxOf(kids, k, depth, acc) == acc ||
      exists j :: k <= j < |kids| && MaxOf(kids, k, depth, acc) == KidValue(kids, j, depth, MaxStep)
    decreases |kids| - k
  {
    if k < |kids| {
      var m := KidValue(kids, k, depth, MaxStep);
      MaxOfSpec(kids, k + 1, depth, Max(acc, m));
    }
  }

  /** The MIN fold is the minimum. */
  lemma {:induction false} MinOfSpec(kids: seq<ChildMove>, k: nat, depth: nat, acc: int)
    requires AllPlayable(kids) && k <= |kids| && depth >= 1
    ensures MinOf(kids, k, depth, acc) <= acc
    ensures forall j :: k <= j < |kids| ==> MinOf(kids, k, depth, acc) <= KidValue(kids, j, depth, MinStep)
    ensures MinOf(kids, k, depth, acc) == acc ||
      exists j :: k <= j < |kids| && MinOf(kids, k, depth, acc) == KidValue(kids, j, depth, MinStep)
    decreases |kids| - k
  {
    if k < |kids| {
      var m := KidValue(kids, k, depth, MinStep);
      MinOfSpec(kids, k + 1, depth, Min(acc, m));
    }
  }

  /**
   * What a window search promises about the true value m when it returns
   * r for a window alpha < beta: a result at or below alpha bounds m from
   * above by alpha, one at or above beta bounds m from below by beta, and
   * a result strictly inside the window is exact.
   */
  predicate Sound(r: int, m: int, alpha: int, beta: int) {
    alpha < beta ==>
      (r <= alpha ==> m <= alpha) && (r >= beta ==> m >= beta) && (alpha < r < beta ==> m == r)
  }

  /**
   * `alphabeta` is a correct window search: for any window of Java ints
   * its result is Sound against the reference minimax value. Skipping the
   * cut-off test at the sentinel bounds only searches more children.
   */
  lemma {:induction false} AlphaBetaSound(b: Board, depth: nat, alpha: int, beta: int, ply: Ply)
    requires Playable(b) && InRange(alpha) && InRange(beta)
    ensures Sound(AlphaBeta(b, depth, alpha, beta, ply), ImpMinimax(b, depth, ply), alpha, beta)
    decreases depth, 1
  {
    if !(Terminal(b) || depth == 0) && alpha < beta {
      if ply == MaxStep {
        ABMaxSound(Kids(b, MaxStep), 0, depth, alpha, beta, alpha, INT_MIN, INT_MIN);
      } else {
        ABMinSound(Kids(b, MinStep), 0, depth, alpha, beta, beta, INT_MAX, INT_MAX);
      }
    }
  }

  /**
   * The MAX loop, entered with window (a0, beta): alpha is a0 raised to
   * the running value, and pm, the minimax value of the children passed
   * so far, agrees with value at or above beta, or else up to a0.
   */
  lemma {:induction false} ABMaxSound(kids: seq<ChildMove>, k: nat, depth: nat, a0: int, beta: int,
                                      alpha: int, value: int, pm: int)
    requires AllPlayable(kids) && k <= |kids| && depth >= 1
    requires InRange(a0) && InRange(beta) && a0 < beta && alpha == Max(a0, value)
    requires (value >= beta && pm >= beta) || (value < beta && Max(a0, pm) == Max(a0, value))
    ensures Sound(ABMax(kids, k, depth, alpha, beta, value), MaxOf(kids, k, depth, pm), a0, beta)
    decreases depth, 0, |kids| - k
  {
    if k < |kids| {
      assert kids[k] in kids;
      var child := kids[k].state;
      var r := AlphaBeta(child, depth - 1, alpha, beta, MinStep);
      var m := ImpMinimax(child, depth - 1, MinStep);
      if value < beta {
        AlphaBetaSound(child, depth - 1, alpha, beta, MinStep);
      }
      var v, pm' := Max(value, r), Max(pm, m);
      assert (v >= beta && pm' >= beta) || (v < beta && Max(a0, pm') == Max(a0, v));
      assert MaxOf(kids, k, depth, pm) == MaxOf(kids, k + 1, depth, pm');
      if alpha != INT_MIN && Max(alpha, v) >= beta {
        MaxOfSpec(kids, k + 1, depth, pm');
      } else {
        ABMaxSound(kids, k + 1, depth, a0, beta, Max(alpha, v), v, pm');
      }
    }
  }

  /** The mirror image for the MIN loop, entered with window (alpha, b0). */
  lemma {:induction false} ABMinSound(kids: seq<ChildMove>, k: nat, depth: nat, alpha: int, b0: int,
                                      beta: int, value: int, pm: int)
    requires AllPlayable(kids) && k <= |kids| && depth >= 1
    requires InRange(alpha) && InRange(b0) && alpha < b0 && beta == Min(b0, value)
    requires (value <= alpha && pm <= alpha) || (value > alpha && Min(b0, pm) == Min(b0, value))
    ensures Sound(ABMin(kids, k, depth, alpha, beta, value), MinOf(kids, k, depth, pm), alpha, b0)
    decreases depth, 0, |kids| - k
  {
    if k < |kids| {
      assert kids[k] in kids;
      var child := kids[k].state;
      var r := AlphaBeta(child, depth - 1, alpha, beta, MaxStep);
      var m := ImpMinimax(child, depth - 1, MaxStep);
      if value > alpha {
        AlphaBetaSound(child, depth - 1, alpha, beta, MaxStep);
      }
      var v, pm' := Min(value, r), Min(pm, m);
      assert (v <= alpha && pm' <= alpha) || (v > alpha && Min(b0, pm') == Min(b0, v));
      assert MinOf(kids, k, depth, pm) == MinOf(kids, k + 1, depth, pm');
      if beta != INT_MAX && alpha >= Min(beta, v) {
        MinOfSpec(kids, k + 1, depth, pm');
      } else {
        ABMinSound(kids, k + 1, depth, alpha, b0, Min(beta, v), v, pm');
      }
    }
  }

  /** Every value of the reference minimax is a Java int. */
  lemma {:induction false} ImpMinimaxInRange(b: Board, depth: nat, ply: Ply)
    requires Playable(b)
    ensures InRange(ImpMinimax(b, depth, ply))
    decreases depth, 1
  {
    if Terminal(b) || depth == 0 {
      MaterialScoreSentinels(b);
    } else if ply == MaxStep {
      FoldsInRange(Kids(b, MaxStep), 0, depth, INT_MIN);
    } else {
      FoldsInRange(Kids(b, MinStep), 0, depth, INT_MAX);
    }
  }

  /** Folds started from a Java int give Java ints. */
  lemma {:induction false} FoldsInRange(kids: seq<ChildMove>, k: nat, depth: nat, acc: int)
    requires AllPlayable(kids) && k <= |kids| && depth >= 1 && InRange(acc)
    ensures InRange(MaxOf(kids, k, depth, acc)) && InRange(MinOf(kids, k, depth, acc))
    decreases depth, 0, |kids| - k
  {
    if k < |kids| {
      assert kids[k] in kids;
      ImpMinimaxInRange(kids[k].state, depth - 1, MinStep);
      ImpMinimaxInRange(kids[k].state, depth - 1, MaxStep);
      FoldsInRange(kids, k + 1, depth, Max(acc, ImpMinimax(kids[k].state, depth - 1, MinStep)));
      FoldsInRange(kids, k + 1, depth, Min(acc, ImpMinimax(kids[k].state, depth - 1, MaxStep)));
    }
  }

  /** Every value `alphabeta` returns is a Java int, whatever the window. */
  lemma {:induction false} AlphaBetaInRange(b: Board, depth: nat, alpha: int, beta: int, ply: Ply)
    requires Playable(b)
    ensures InRange(AlphaBeta(b, depth, alpha, beta, ply))
    decreases depth, 1
  {
    if Terminal(b) || depth == 0 {
      MaterialScoreSentinels(b);
    } else if ply == MaxStep {
      ABMaxInRange(Kids(b, MaxStep), 0, depth, alpha, beta, INT_MIN);
    } else {
      ABMinInRange(Kids(b, MinStep), 0, depth, alpha, beta, INT_MAX);
    }
  }

  lemma {:induction false} ABMaxInRange(kids: seq<ChildMove>, k: nat, depth: nat, alpha: int, beta: int, value: int)
    requires AllPlayable(kids) && k <= |kids| && depth >= 1 && InRange(value)
    ensures InRange(ABMax(kids, k, depth, alpha, beta, value))
    decreases depth, 0, |kids| - k
  {
    if k < |kids| {
      assert kids[k] in kids;
      AlphaBetaInRange(kids[k].state, depth - 1, alpha, beta, MinStep);
      var v := Max(value, AlphaBeta(kids[k].state, depth - 1, alpha, beta, MinStep));
      if !(alpha != INT_MIN && Max(alpha, v) >= beta) {
        ABMaxInRange(kids, k + 1, depth, Max(alpha, v), beta, v);
      }
    }
  }

  lemma {:induction false} ABMinInRange(kids: seq<ChildMove>, k: nat, depth: nat, alpha: int, beta: int, value: int)
    requires AllPlayable(kids) && k <= |kids| && depth >= 1 && InRange(value)
    ensures InRange(ABMin(kids, k, depth, alpha, beta, value))
    decreases depth, 0, |kids| - k
  {
    if k < |kids| {
      assert kids[k] in kids;
      AlphaBetaInRange(kids[k].state, depth - 1, alpha, beta, MaxStep);
      var v := Min(value, AlphaBeta(kids[k].state, depth - 1, alpha, beta, MaxStep));
      if !(beta != INT_MAX && alpha >= Min(beta, v)) {
        ABMinInRange(kids, k + 1, depth, alpha, Min(beta, v), v);
      }
    }
  }

  /**
   * With the full window (Integer.MIN_VALUE, Integer.MAX_VALUE), as both
   * root scorers call it, `alphabeta` returns exactly the minimax value.
   */
  lemma FullWindowExact(b: Board, depth: nat, ply: Ply)
    requires Playable(b)
    ensures AlphaBeta(b, depth, INT_MIN, INT_MAX, ply) == ImpMinimax(b, depth, ply)
  {
    AlphaBetaSound(b, depth, INT_MIN, INT_MAX, ply);
    AlphaBetaInRange(b, depth, INT_MIN, INT_MAX, ply);
    ImpMinimaxInRange(b, depth, ply);
  }

  /** One round of the MAX loop on child k, whose search gave r. */
  lemma ABMaxStep(kids: seq<ChildMove>, k: nat, depth: nat, alpha: int, beta: int, value: int, r: int)
    requires AllPlayable(kids) && k < |kids| && depth >= 1
    requires r == AlphaBeta(kids[k].state, depth - 1, alpha, beta, MinStep)
    ensures var v := Max(value, r);
      ABMax(kids, k, depth, alpha, beta, value) ==
      if alpha != INT_MIN && Max(alpha, v) >= beta then v else ABMax(kids, k + 1, depth, Max(alpha, v), beta, v)
  {
  }

  /** One round of the MIN loop on child k, whose search gave r. */
  lemma ABMinStep(kids: seq<ChildMove>, k: nat, depth: nat, alpha: int, beta: int, value: int, r: int)
    requires AllPlayable(kids) && k < |kids| && depth >= 1
    requires r == AlphaBeta(kids[k].state, depth - 1, alpha, beta, MaxStep)
    ensures var v := Min(value, r);
      ABMin(kids, k, depth, alpha, beta, value) ==
      if beta != INT_MAX && alpha >= Min(beta, v) then v else ABMin(kids, k + 1, depth, alpha, Min(beta, v), v)
  {
  }
}
