/**
 * The MTDFAgent object: the Zobrist table it is built with and the
 * transposition table its searches read and update, kept across moves.
 * Each method is proved equal to its specification in MTDFSearch.
 */
module Agent {
  import opened Board
  import opened RuleEngine
  import opened Evaluation
  import opened Zobrist
  import opened TransTable
  import opened MTDFSearch

  class MTDFAgent {
    const zobristTable: seq<seq<bv64>>
    var transTable: Table

    /** The table has its 14 x 37 shape and every stored bound is a Java int. */
    ghost predicate Valid()
      reads this
    {
      ValidTable(zobristTable) && TableInRange(transTable)
    }

    /** The constructor, with the random bit strings given as `table`; the transposition table starts empty. */
    constructor(table: seq<seq<bv64>>)
      requires ValidTable(table)
      ensures zobristTable == table && transTable == map[] && Valid()
    {
      zobristTable := table;
      transTable := map[];
    }

    /** `alphaBetaWithMemory`. */
    method AlphaBetaWithMemory(node: ChildMove, alpha: int, beta: int, depth: nat, step: Ply) returns (r: MoveScore)
      requires ValidTable(zobristTable) && Playable(node.state)
      modifies this
      ensures Outcome(r, transTable) == AlphaBetaMemo(zobristTable, old(transTable), node, alpha, beta, depth, step)
      decreases depth, 1, 2
    {
      ghost var tt0 := transTable;
      var hash := Key(zobristTable, node.state);
      if depth == 0 || Terminal(node.state) {
        return MoveScore(node.move, Evaluate(node.state));
      }
      var a, b := alpha, beta;
      if ValidEntry(transTable, node.move, hash) {
        var trans := transTable[hash];
        if trans.depth >= depth {
          if trans.lowerbound >= beta {
            return MoveScore(node.move, trans.lowerbound);
          }
          if trans.upperbound <= alpha {
            return MoveScore(node.move, trans.upperbound);
          }
          a := Max(alpha, trans.lowerbound);
          b := Min(beta, trans.upperbound);
        }
      }
      assert Lookup(transTable, node.move, hash, depth, alpha, beta) == Window(a, b);
      var kids := Children(MTDFRules, node, step, false);
      KidsPlayable(MTDFRules, node, step);
      var value, bestMove;
      if step == MaxStep {
        value, bestMove := MaxChildren(kids, a, b, depth);
      } else {
        value, bestMove := MinChildren(kids, a, b, depth);
      }
      var trans := if hash in transTable then transTable[hash] else DefaultEntry;
      if trans.depth <= depth {
        if value <= a {
          trans := trans.(upperbound := value);
        } else if value >= b {
          trans := trans.(lowerbound := value);
        } else {
          trans := trans.(lowerbound := value, upperbound := value);
        }
        trans := trans.(depth := depth);
        transTable := transTable[hash := trans];
      }
      r := MoveScore(bestMove, value);
      assert Outcome(r, transTable) == SearchChildren(zobristTable, tt0, node, hash, a, b, depth, step);
    }

    /** The MAX step's loop over the children. */
    method MaxChildren(kids: seq<ChildMove>, alpha: int, beta: int, depth: nat) returns (value: int, bestMove: int)
      requires ValidTable(zobristTable) && AllPlayable(kids) && depth >= 1
      modifies this
      ensures LoopState(value, bestMove, transTable) ==
        MaxLoop(zobristTable, old(transTable), kids, 0, alpha, beta, depth, alpha, INT_MIN, 0)
      decreases depth, 0
    {
      value, bestMove := INT_MIN, 0;
      var a := alpha;
      var k := 0;
      ghost var spec := MaxLoop(zobristTable, transTable, kids, 0, alpha, beta, depth, alpha, INT_MIN, 0);
      while k < |kids|
        invariant 0 <= k <= |kids|
        invariant MaxLoop(zobristTable, transTable, kids, k, alpha, beta, depth, a, value, bestMove) == spec
        decreases |kids| - k
      {
        ghost var before, value0, best0 := transTable, value, bestMove;
        var child := kids[k];
        var searchResult := AlphaBetaWithMemory(child, a, beta, depth - 1, MinStep);
        if searchResult.score >= value {
          value := searchResult.score;
          bestMove := child.move;
        }
        MaxLoopStep(zobristTable, before, kids, k, alpha, beta, depth, a, value0, best0,
          searchResult, transTable, value, bestMove);
        a := Max(a, value);
        if alpha >= beta {
          break;
        }
        k := k + 1;
      }
    }

    /** The MIN step's loop over the children. */
    method MinChildren(kids: seq<ChildMove>, alpha: int, beta: int, depth: nat) returns (value: int, bestMove: int)
      requires ValidTable(zobristTable) && AllPlayable(kids) && depth >= 1
      modifies this
      ensures LoopState(value, bestMove, transTable) ==
        MinLoop(zobristTable, old(transTable), kids, 0, alpha, beta, depth, beta, INT_MAX, 0)
      decreases depth, 0
    {
      value, bestMove := INT_MAX, 0;
      var b := beta;
      var k := 0;
      ghost var spec := MinLoop(zobristTable, transTable, kids, 0, alpha, beta, depth, beta, INT_MAX, 0);
      while k < |kids|
        invariant 0 <= k <= |kids|
        invariant MinLoop(zobristTable, transTable, kids, k, alpha, beta, depth, b, value, bestMove) == spec
        decreases |kids| - k
      {
        ghost var before, value0, best0 := transTable, value, bestMove;
        var child := kids[k];
        var searchResult := AlphaBetaWithMemory(child, alpha, b, depth - 1, MaxStep);
        if searchResult.score <= value {
          value := searchResult.score;
          bestMove := child.move;
        }
        MinLoopStep(zobristTable, before, kids, k, alpha, beta, depth, b, value0, best0,
          searchResult, transTable, value, bestMove);
        b := Min(b, value);
        if alpha >= beta {
          break;
        }
        k := k + 1;
      }
    }

    /** `MTDF`: zero-window probes until the bounds meet. */
    method MTDF(state: ChildMove, guess: int, depth: nat) returns (move: MoveScore)
      requires ValidTable(zobristTable) && Playable(state.state) && InRange(guess)
      modifies this
      ensures var d := MTDFSearch.MTDF(zobristTable, old(transTable), state, guess, depth);
        move == d.move && transTable == d.table
    {
      move := MoveScore(-1, -1);
      var value, upperbound, lowerbound := guess, INT_MAX, INT_MIN;
      while lowerbound < upperbound
        invariant lowerbound < upperbound ==> value <= upperbound
        invariant MTDFLoop(zobristTable, Driver(value, lowerbound, upperbound, move, transTable), state, depth) ==
          MTDFSearch.MTDF(zobristTable, old(transTable), state, guess, depth)
        decreases upperbound - lowerbound
      {
        var beta := Max(value, lowerbound + 1);
        ProbeProgress(value, lowerbound, upperbound, 0);
        move := AlphaBetaWithMemory(state, beta - 1, beta, depth, MaxStep);
        value := move.score;
        if value < beta {
          upperbound := value;
        } else {
          lowerbound := value;
        }
      }
    }

    /**
     * `move`: iterative deepening from depth 1, with `clock[n]` the answer
     * of the n-th `timeUp()` check. On a board still in play the answer is
     * a non-empty house 0..5.
     */
    method Move(board: Board, clock: seq<bool>) returns (house: int)
      requires Valid() && Playable(board)
      modifies this
      ensures Valid()
      ensures var r := MoveSearch(zobristTable, old(transTable), board, clock);
        house == r.best.move && transTable == r.table
      ensures !Terminal(board) ==> LegalMove(board, house)
    {
      ghost var spec := MoveSearch(zobristTable, transTable, board, clock);
      MoveSearchInRange(zobristTable, transTable, board, clock);
      if !Terminal(board) {
        MoveSearchLegal(zobristTable, transTable, board, clock);
      }
      var depth := 1;
      var guess := 0;
      var state := ChildMove(ROOT_LABEL, board);
      MTDFInRange(zobristTable, Driver(guess, INT_MIN, INT_MAX, MoveScore(-1, -1), transTable), state, depth);
      var best := MTDF(state, guess, depth);
      while depth < MAX_SEARCH_DEPTH && !TimeUp(clock, depth - 1)
        invariant 1 <= depth <= MAX_SEARCH_DEPTH
        invariant TableInRange(transTable) && InRange(guess)
        invariant DeepenLoop(zobristTable, transTable, state, depth, guess, best, clock) == spec
        decreases MAX_SEARCH_DEPTH - depth
      {
        depth := depth + 1;
        MTDFInRange(zobristTable, Driver(guess, INT_MIN, INT_MAX, MoveScore(-1, -1), transTable), state, depth);
        best := MTDF(state, guess, depth);
        guess := best.score;
      }
      house := best.move;
    }
  }
}
