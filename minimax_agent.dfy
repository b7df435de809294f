/**
 * MMAgent: plain minimax to a fixed depth of 7 over the shared rule
 * engine, with the material evaluator at the leaves. The agent holds no
 * state, so its operations are methods of this module, each proved equal
 * to its specification in MinimaxSearch.
 */
module MinimaxAgent {
  import opened Board
  import opened RuleEngine
  import opened Evaluation
  import opened MinimaxSearch

  /** `minimax`: the children's loop, the last child reaching the running best taking its place. */
  method Minimax(node: ChildMove, depth: nat, step: Ply) returns (r: MoveScore)
    requires Playable(node.state)
    ensures r == MinimaxSearch.Minimax(node, depth, step)
    decreases depth
  {
    if depth == 0 || Terminal(node.state) {
      return MoveScore(node.move, MaterialScore(node.state));
    }
    var value, bestMove := 0, 0;
    KidsPlayable(MTDFRules, node, step);
    if step == MaxStep {
      value := INT_MIN;
      var kids := Children(MTDFRules, node, MaxStep, false);
      var k := 0;
      while k < |kids|
        invariant 0 <= k <= |kids|
        invariant MaxFold(kids, k, depth, value, bestMove) == MinimaxSearch.Minimax(node, depth, step)
      {
        var child := kids[k];
        assert child in kids;
        var searchResult := Minimax(child, depth - 1, MinStep);
        MaxFoldStep(kids, k, depth, value, bestMove, searchResult);
        if searchResult.score >= value {
          value := searchResult.score;
          bestMove := child.move;
        }
        k := k + 1;
      }
    } else {
      value := INT_MAX;
      var kids := Children(MTDFRules, node, MinStep, false);
      var k := 0;
      while k < |kids|
        invariant 0 <= k <= |kids|
        invariant MinFold(kids, k, depth, value, bestMove) == MinimaxSearch.Minimax(node, depth, step)
      {
        var child := kids[k];
        assert child in kids;
        var searchResult := Minimax(child, depth - 1, MaxStep);
        MinFoldStep(kids, k, depth, value, bestMove, searchResult);
        if searchResult.score <= value {
          value := searchResult.score;
          bestMove := child.move;
        }
        k := k + 1;
      }
    }
    r := MoveScore(bestMove, value);
  }

  /** `move`: a depth-7 MAX search from the unlabelled root; in play, a non-empty house 0..5. */
  method Move(board: Board) returns (house: int)
    requires Playable(board)
    ensures house == MinimaxSearch.Minimax(ChildMove(-1, board), 7, MaxStep).move
    ensures !Terminal(board) ==> LegalMove(board, house)
  {
    if !Terminal(board) {
      MinimaxMoveLegal(board, -1, 7);
    }
    var best := Minimax(ChildMove(-1, board), 7, MaxStep);
    house := best.move;
  }
}
