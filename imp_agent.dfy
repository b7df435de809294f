/**
 * The MancalaImp agent's search code, step by step: `alphabeta` with its
 * running value and bound, `extraTurnValue` and `move` with their loops
 * over the houses 0..5, each sowing a copy of the board. The agent's
 * fields are never read by this code, so the operations are methods of
 * this module, each proved equal to its specification in ImpSearch and
 * ImpRoot.
 */
module ImpAgent {
  import opened Board
  import opened Sowing
  import opened RuleEngine
  import opened Evaluation
  import opened ImpSearch
  import opened ImpRoot

  /** `alphabeta(state, depth, alpha, beta, step)`. */
  method AlphaBeta(state: Board, depth: nat, alpha: int, beta: int, step: Ply) returns (value: int)
    requires Playable(state)
    ensures value == ImpSearch.AlphaBeta(state, depth, alpha, beta, step)
    decreases depth, 1
  {
    if Terminal(state) || depth == 0 {
      return MaterialScore(state);
    }
    var kids := Children(ImpRules, ChildMove(-1, state), step, false);
    assert kids == Kids(state, step);
    if step == MaxStep {
      value := MaxChildren(kids, depth, alpha, beta);
    } else {
      value := MinChildren(kids, depth, alpha, beta);
    }
  }

  /** The MAX step's loop over the children, alpha being raised as it goes. */
  method MaxChildren(kids: seq<ChildMove>, depth: nat, alpha0: int, beta: int) returns (value: int)
    requires AllPlayable(kids) && depth >= 1
    ensures value == ABMax(kids, 0, depth, alpha0, beta, INT_MIN)
    decreases depth, 0
  {
    ghost var spec := ABMax(kids, 0, depth, alpha0, beta, INT_MIN);
    var alpha := alpha0;
    value := INT_MIN;
    var k := 0;
    while k < |kids|
      invariant 0 <= k <= |kids|
      invariant ABMax(kids, k, depth, alpha, beta, value) == spec
    {
      var child := kids[k];
      assert child in kids;
      var r := AlphaBeta(child.state, depth - 1, alpha, beta, MinStep);
      ABMaxStep(kids, k, depth, alpha, beta, value, r);
      value := Max(value, r);
      if alpha == INT_MIN {
        alpha := Max(alpha, value);
      } else {
        alpha := Max(alpha, value);
        if alpha >= beta {
          break;
        }
      }
      k := k + 1;
    }
  }

  /** The MIN step's loop over the children, beta being lowered as it goes. */
  method MinChildren(kids: seq<ChildMove>, depth: nat, alpha: int, beta0: int) returns (value: int)
    requires AllPlayable(kids) && depth >= 1
    ensures value == ABMin(kids, 0, depth, alpha, beta0, INT_MAX)
    decreases depth, 0
  {
    ghost var spec := ABMin(kids, 0, depth, alpha, beta0, INT_MAX);
    var beta := beta0;
    value := INT_MAX;
    var k := 0;
    while k < |kids|
      invariant 0 <= k <= |kids|
      invariant ABMin(kids, k, depth, alpha, beta, value) == spec
    {
      var child := kids[k];
      assert child in kids;
      var r := AlphaBeta(child.state, depth - 1, alpha, beta, MaxStep);
      ABMinStep(kids, k, depth, alpha, beta, value, r);
      value := Min(value, r);
      if beta == INT_MAX {
        beta := Min(beta, value);
      } else {
        beta := Min(beta, value);
        if alpha >= beta {
          break;
        }
      }
      k := k + 1;
    }
  }

  /**
   * The body of the house loops of `move` and `extraTurnValue`: sow a copy
   * of the board from house i, then score the extra turn or, after the
   * capture rule, search the board with MAX to move.
   */
  method PlayValue(b: Board, i: int, depth: nat, searchDepth: nat) returns (curr: int)
    requires Playable(b) && 0 <= i < 6 && b[i] > 0 && depth >= 1
    ensures curr == ImpRoot.PlayValue(b, i, depth, searchDepth)
    decreases Unstored(b, MaxStep), 0
  {
    var newState, j := SowCopy(SkipSlot13, b, i);
    SowConserves(SkipSlot13, b, i);
    if j == 6 {
      ExtraTurnShrinks(ImpRules, b, MaxStep, i);
      curr := ExtraTurnValue(newState, depth);
    } else {
      CaptureConserves(MaxStep, newState, j);
      curr := AlphaBeta(Capture(MaxStep, newState, j), searchDepth, INT_MIN, INT_MAX, MaxStep);
    }
  }

  /** `extraTurnValue(state, depth)`: the best value over the non-empty houses 0..5. */
  method ExtraTurnValue(b: Board, depth: nat) returns (value: int)
    requires Playable(b) && depth >= 1
    ensures value == ImpRoot.ExtraTurnValue(b, depth)
    decreases Unstored(b, MaxStep), 2
  {
    value := INT_MIN;
    for i := 0 to 6
      invariant ExtraFrom(b, i, depth, value) == ImpRoot.ExtraTurnValue(b, depth)
    {
      if b[i] > 0 {
        var curr := PlayValue(b, i, depth, depth - 1);
        if curr >= value {
          value := curr;
        }
      }
    }
  }

  /**
   * `move(board)`: the last non-empty house 0..5 of largest value, searched
   * to depth 10; a non-empty house whenever there is one.
   */
  method Move(board: Board) returns (best: int)
    requires Playable(board)
    ensures best == ImpMove(board)
    ensures (exists j :: 0 <= j < 6 && board[j] > 0) ==> LegalMove(board, best)
  {
    if exists j :: 0 <= j < 6 && board[j] > 0 {
      ImpMoveSpec(board);
    }
    var depth := ROOT_DEPTH;
    best := 0;
    var value := INT_MIN;
    ghost var scores := RootScores(board, depth);
    for i := 0 to 6
      invariant RootFrom(board, scores, i, value, best) == RootFrom(board, scores, 0, INT_MIN, 0)
    {
      if board[i] > 0 {
        var curr := PlayValue(board, i, depth, depth);
        assert curr == scores[i];
        if curr >= value {
          value := curr;
          best := i;
        }
      }
    }
  }
}
