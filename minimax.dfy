/**
 * MMAgent's plain `minimax` as a function: a leaf scores the material
 * evaluator, an inner node folds its children (the same rule engine as
 * MTDFAgent) keeping the last child that ties or beats the running best.
 */
module MinimaxSearch {
  import opened Board
  import opened RuleEngine
  import opened Evaluation

  /** `minimax(move, depth, step)`. */
  function Minimax(node: ChildMove, depth: nat, ply: Ply): MoveScore
    requires Playable(node.state)
    decreases depth, 1
  {
    if depth == 0 || Terminal(node.state) then
      MoveScore(node.move, MaterialScore(node.state))
    else
      KidsPlayable(MTDFRules, node, ply);
      var kids := ChildrenOf(MTDFRules, node, ply, false);
      if ply == MaxStep then MaxFold(kids, 0, depth, INT_MIN, 0)
      else MinFold(kids, 0, depth, INT_MAX, 0)
  }

  /** The score of child k one level down, searched for the other side. */
  function ChildScore(kids: seq<ChildMove>, k: int, depth: nat, ply: Ply): int
    requires AllPlayable(kids) && 0 <= k < |kids| && depth >= 1
    decreases depth, 0, 0
  {
    assert kids[k] in kids;
    Minimax(kids[k], depth - 1, ply.Other()).score
  }

  /** The MAX loop from child k on, with the running value and best move. */
  function MaxFold(kids: seq<ChildMove>, k: nat, depth: nat, value: int, best: int): MoveScore
    requires AllPlayable(kids) && k <= |kids| && depth >= 1
    decreases depth, 0, |kids| - k + 1
  {
    if k == |kids| then MoveScore(best, value)
    else
      var s := ChildScore(kids, k, depth, MaxStep);
      if s >= value then MaxFold(kids, k + 1, depth, s, kids[k].move)
      else MaxFold(kids, k + 1, depth, value, best)
  }

  /** The MIN loop from child k on. */
  function MinFold(kids: seq<ChildMove>, k: nat, depth: nat, value: int, best: int): MoveScore
    requires AllPlayable(kids) && k <= |kids| && depth >= 1
    decreases depth, 0, |kids| - k + 1
  {
    if k == |kids| then MoveScore(best, value)
    else
      var s := ChildScore(kids, k, depth, MinStep);
      if s <= value then MinFold(kids, k + 1, depth, s, kids[k].move)
      else MinFold(kids, k + 1, depth, value, best)
  }

  /** r is the score of some child k.., and r's move is the tag of the last child with that score. */
  predicate LastAttaining(kids: seq<ChildMove>, k: nat, depth: nat, ply: Ply, r: MoveScore)
    requires AllPlayable(kids) && k <= |kids| && depth >= 1
  {
    exists j :: k <= j < |kids| && ChildScore(kids, j, depth, ply) == r.score && r.move == kids[j].move &&
      forall j' :: j < j' < |kids| ==> ChildScore(kids, j', depth, ply) != r.score
  }

  /**
   * The MAX loop returns the largest of the start value and the scores of
   * children k..; if some child reaches the start value, the move is
   * that of the last child scoring the result, and otherwise the start
   * move is kept.
   */
  lemma {:induction false} MaxFoldSpec(kids: seq<ChildMove>, k: nat, depth: nat, value: int, best: int)
    requires AllPlayable(kids) && k <= |kids| && depth >= 1
    ensures value <= MaxFold(kids, k, depth, value, best).score
    ensures forall j :: k <= j < |kids| ==> ChildScore(kids, j, depth, MaxStep) <= MaxFold(kids, k, depth, value, best).score
    ensures (forall j :: k <= j < |kids| ==> ChildScore(kids, j, depth, MaxStep) < value) ==>
      MaxFold(kids, k, depth, value, best) == MoveScore(best, value)
    ensures (exists j :: k <= j < |kids| && ChildScore(kids, j, depth, MaxStep) >= value) ==>
      LastAttaining(kids, k, depth, MaxStep, MaxFold(kids, k, depth, value, best))
    decreases |kids| - k
  {
    if k < |kids| {
      var s := ChildScore(kids, k, depth, MaxStep);
      var r := MaxFold(kids, k, depth, value, best);
      if s >= value {
        MaxFoldSpec(kids, k + 1, depth, s, kids[k].move);
        if exists j :: k + 1 <= j < |kids| && ChildScore(kids, j, depth, MaxStep) >= s {
          var j :| k + 1 <= j < |kids| && ChildScore(kids, j, depth, MaxStep) == r.score && r.move == kids[j].move &&
            forall j' :: j < j' < |kids| ==> ChildScore(kids, j', depth, MaxStep) != r.score;
        } else {
          assert r == MoveScore(kids[k].move, s);
          assert ChildScore(kids, k, depth, MaxStep) == r.score;
        }
      } else {
        MaxFoldSpec(kids, k + 1, depth, value, best);
        if exists j :: k <= j < |kids| && ChildScore(kids, j, depth, MaxStep) >= value {
          var j :| k + 1 <= j < |kids| && ChildScore(kids, j, depth, MaxStep) == r.score && r.move == kids[j].move &&
            forall j' :: j < j' < |kids| ==> ChildScore(kids, j', depth, MaxStep) != r.score;
        }
      }
    }
  }

  /** The mirror image for the MIN loop: the smallest score, with the last child attaining it. */
  lemma {:induction false} MinFoldSpec(kids: seq<ChildMove>, k: nat, depth: nat, value: int, best: int)
    requires AllPlayable(kids) && k <= |kids| && depth >= 1
    ensures MinFold(kids, k, depth, value, best).score <= value
    ensures forall j :: k <= j < |kids| ==> MinFold(kids, k, depth, value, best).score <= ChildScore(kids, j, depth, MinStep)
    ensures (forall j :: k <= j < |kids| ==> ChildScore(kids, j, depth, MinStep) > value) ==>
      MinFold(kids, k, depth, value, best) == MoveScore(best, value)
    ensures (exists j :: k <= j < |kids| && ChildScore(kids, j, depth, MinStep) <= value) ==>
      LastAttaining(kids, k, depth, MinStep, MinFold(kids, k, depth, value, best))
    decreases |kids| - k
  {
    if k < |kids| {
      var s := ChildScore(kids, k, depth, MinStep);
      var r := MinFold(kids, k, depth, value, best);
      if s <= value {
        MinFoldSpec(kids, k + 1, depth, s, kids[k].move);
        if exists j :: k + 1 <= j < |kids| && ChildScore(kids, j, depth, MinStep) <= s {
          var j :| k + 1 <= j < |kids| && ChildScore(kids, j, depth, MinStep) == r.score && r.move == kids[j].move &&
            forall j' :: j < j' < |kids| ==> ChildScore(kids, j', depth, MinStep) != r.score;
        } else {
          assert r == MoveScore(kids[k].move, s);
          assert ChildScore(kids, k, depth, MinStep) == r.score;
        }
      } else {
        MinFoldSpec(kids, k + 1, depth, value, best);
        if exists j :: k <= j < |kids| && ChildScore(kids, j, depth, MinStep) <= value {
          var j :| k + 1 <= j < |kids| && ChildScore(kids, j, depth, MinStep) == r.score && r.move == kids[j].move &&
            forall j' :: j < j' < |kids| ==> ChildScore(kids, j', depth, MinStep) != r.score;
        }
      }
    }
  }

  /** Every score `minimax` returns is a Java int. */
  lemma {:induction false} MinimaxInRange(node: ChildMove, depth: nat, ply: Ply)
    requires Playable(node.state)
    ensures InRange(Minimax(node, depth, ply).score)
    decreases depth, 1
  {
    if depth == 0 || Terminal(node.state) {
      MaterialScoreSentinels(node.state);
    } else {
      KidsPlayable(MTDFRules, node, ply);
      var kids := ChildrenOf(MTDFRules, node, ply, false);
      if ply == MaxStep {
        FoldInRange(kids, 0, depth, INT_MIN, 0, MaxStep);
      } else {
        FoldInRange(kids, 0, depth, INT_MAX, 0, MinStep);
      }
    }
  }

  /** A loop started from a Java int returns a Java int. */
  lemma {:induction false} FoldInRange(kids: seq<ChildMove>, k: nat, depth: nat, value: int, best: int, ply: Ply)
    requires AllPlayable(kids) && k <= |kids| && depth >= 1 && InRange(value)
    ensures ply == MaxStep ==> InRange(MaxFold(kids, k, depth, value, best).score)
    ensures ply == MinStep ==> InRange(MinFold(kids, k, depth, value, best).score)
    decreases depth, 0, |kids| - k
  {
    if k < |kids| {
      assert kids[k] in kids;
      MinimaxInRange(kids[k], depth - 1, ply.Other());
      var s := ChildScore(kids, k, depth, ply);
      if ply == MaxStep {
        if s >= value {
          FoldInRange(kids, k + 1, depth, s, kids[k].move, ply);
        } else {
          FoldInRange(kids, k + 1, depth, value, best, ply);
        }
      } else {
        if s <= value {
          FoldInRange(kids, k + 1, depth, s, kids[k].move, ply);
        } else {
          FoldInRange(kids, k + 1, depth, value, best, ply);
        }
      }
    }
  }

  /**
   * At an inner node, `minimax` is the maximum (MAX) or minimum (MIN) of
   * its children's scores, and its move is the tag of the last child
   * attaining that score.
   */
  lemma MinimaxInner(node: ChildMove, depth: nat, ply: Ply)
    requires Playable(node.state) && depth >= 1 && !Terminal(node.state)
    ensures var kids := ChildrenOf(MTDFRules, node, ply, false);
      var r := Minimax(node, depth, ply);
      AllPlayable(kids) &&
      (ply == MaxStep ==> forall j :: 0 <= j < |kids| ==> ChildScore(kids, j, depth, ply) <= r.score) &&
      (ply == MinStep ==> forall j :: 0 <= j < |kids| ==> r.score <= ChildScore(kids, j, depth, ply)) &&
      LastAttaining(kids, 0, depth, ply, r)
  {
    KidsPlayable(MTDFRules, node, ply);
    var kids := ChildrenOf(MTDFRules, node, ply, false);
    NonTerminalHasChild(node, ply, false);
    assert kids[0] in kids;
    MinimaxInRange(kids[0], depth - 1, ply.Other());
    assert InRange(ChildScore(kids, 0, depth, ply));
    if ply == MaxStep {
      MaxFoldSpec(kids, 0, depth, INT_MIN, 0);
    } else {
      MinFoldSpec(kids, 0, depth, INT_MAX, 0);
    }
  }

  /** One round of the MAX loop on child k, whose search gave r. */
  lemma MaxFoldStep(kids: seq<ChildMove>, k: nat, depth: nat, value: int, best: int, r: MoveScore)
    requires AllPlayable(kids) && k < |kids| && depth >= 1
    requires r == Minimax(kids[k], depth - 1, MinStep)
    ensures MaxFold(kids, k, depth, value, best) ==
      if r.score >= value then MaxFold(kids, k + 1, depth, r.score, kids[k].move)
      else MaxFold(kids, k + 1, depth, value, best)
  {
  }

  /** One round of the MIN loop on child k, whose search gave r. */
  lemma MinFoldStep(kids: seq<ChildMove>, k: nat, depth: nat, value: int, best: int, r: MoveScore)
    requires AllPlayable(kids) && k < |kids| && depth >= 1
    requires r == Minimax(kids[k], depth - 1, MaxStep)
    ensures MinFold(kids, k, depth, value, best) ==
      if r.score <= value then MinFold(kids, k + 1, depth, r.score, kids[k].move)
      else MinFold(kids, k + 1, depth, value, best)
  {
  }

  /**
   * On a board still in play, a MAX search of depth >= 1 from a top-level
   * node answers with a non-empty house 0..5.
   */
  lemma MinimaxMoveLegal(b: Board, tag: int, depth: nat)
    requires Playable(b) && !Terminal(b) && depth >= 1
    ensures LegalMove(b, Minimax(ChildMove(tag, b), depth, MaxStep).move)
  {
    var node := ChildMove(tag, b);
    var kids := ChildrenOf(MTDFRules, node, MaxStep, false);
    MinimaxInner(node, depth, MaxStep);
    ChildrenLabels(MTDFRules, node, MaxStep);
    var r := Minimax(node, depth, MaxStep);
    var j :| 0 <= j < |kids| && r.move == kids[j].move;
    assert kids[j] in kids;
  }

  /** With a single non-empty house among 0..5, that house is the move. */
  lemma MinimaxOnlyMove(b: Board, tag: int, depth: nat, m: int)
    requires Playable(b) && !Terminal(b) && depth >= 1 && 0 <= m < 6
    requires forall i :: 0 <= i < 6 && i != m ==> b[i] == 0
    ensures Minimax(ChildMove(tag, b), depth, MaxStep).move == m
  {
    MinimaxMoveLegal(b, tag, depth);
  }
}
