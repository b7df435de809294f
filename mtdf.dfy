/**
 * The search of MTDFAgent as functions of the Zobrist table and the
 * transposition table: `alphaBetaWithMemory` with its child loops, the
 * MTD(f) driver `MTDF`, and the iterative deepening of `move`. Each
 * returns its result together with the transposition table it leaves.
 */
module MTDFSearch {
  import opened Board
  import opened RuleEngine
  import opened Evaluation
  import opened Zobrist
  import opened TransTable
  import opened Sowing

  /** MAX_SEARCH_DEPTH. */
  const MAX_SEARCH_DEPTH: int := 100

  /** The label given to the root: it never uses the table. */
  const ROOT_LABEL: int := -10

  /** A search result and the table after the search. */
  datatype Outcome = Outcome(result: MoveScore, table: Table)

  /** The running value, best move and table of a child loop. */
  datatype LoopState = LoopState(value: int, best: int, table: Table)

  /** The table key of a board. */
  function Key(zt: seq<seq<bv64>>, b: Board): HashKey {
    HashKey(ZobristHash(zt, b))
  }

  /**
   * `alphaBetaWithMemory(move, alpha, beta, depth, step)`: a leaf scores
   * `evaluate` under its own label; otherwise the table may settle the
   * node or narrow the window, the children are searched, and the value
   * is stored against the narrowed window.
   */
  function AlphaBetaMemo(zt: seq<seq<bv64>>, tt: Table, node: ChildMove, alpha: int, beta: int, depth: nat, ply: Ply): Outcome
    requires ValidTable(zt) && Playable(node.state)
    decreases depth, 1, 2
  {
    if depth == 0 || Terminal(node.state) then
      Outcome(MoveScore(node.move, Evaluate(node.state)), tt)
    else
      Probed(zt, tt, node, alpha, beta, depth, ply)
  }

  /** Past the base case: the table lookup settles the node or gives the window to search. */
  function Probed(zt: seq<seq<bv64>>, tt: Table, node: ChildMove, alpha: int, beta: int, depth: nat, ply: Ply): Outcome
    requires ValidTable(zt) && Playable(node.state) && depth >= 1
    decreases depth, 1, 1
  {
    var h := Key(zt, node.state);
    match Lookup(tt, node.move, h, depth, alpha, beta)
    case Cutoff(score) => Outcome(MoveScore(node.move, score), tt)
    case Window(a, b) => SearchChildren(zt, tt, node, h, a, b, depth, ply)
  }

  /**
   * The rest of `alphaBetaWithMemory` once the lookup leaves the window
   * (a, b): the children are searched and the value is stored under h.
   */
  function SearchChildren(zt: seq<seq<bv64>>, tt: Table, node: ChildMove, h: HashKey,
                          a: int, b: int, depth: nat, ply: Ply): Outcome
    requires ValidTable(zt) && Playable(node.state) && depth >= 1
    decreases depth, 1, 0
  {
    KidsPlayable(MTDFRules, node, ply);
    var kids := ChildrenOf(MTDFRules, node, ply, false);
    var l :=
      if ply == MaxStep then MaxLoop(zt, tt, kids, 0, a, b, depth, a, INT_MIN, 0)
      else MinLoop(zt, tt, kids, 0, a, b, depth, b, INT_MAX, 0);
    Outcome(MoveScore(l.best, l.value), StoreEntry(l.table, h, depth, a, b, l.value))
  }

  /**
   * The MAX child loop from child k on: a child scoring at least the
   * running value becomes the best move; `a` rises with the value; the
   * loop stops after this child when the narrowed window alpha >= beta.
   */
  function MaxLoop(zt: seq<seq<bv64>>, tt: Table, kids: seq<ChildMove>, k: nat,
                   alpha: int, beta: int, depth: nat, a: int, value: int, best: int): LoopState
    requires ValidTable(zt) && AllPlayable(kids) && k <= |kids| && depth >= 1
    decreases depth, 0, |kids| - k
  {
    if k == |kids| then LoopState(value, best, tt)
    else
      var o := AlphaBetaMemo(zt, tt, kids[k], a, beta, depth - 1, MinStep);
      var takes := o.result.score >= value;
      var value' := if takes then o.result.score else value;
      var best' := if takes then kids[k].move else best;
      if alpha >= beta then LoopState(value', best', o.table)
      else MaxLoop(zt, o.table, kids, k + 1, alpha, beta, depth, Max(a, value'), value', best')
  }

  /** The MIN child loop, the mirror image with `b` falling with the value. */
  function MinLoop(zt: seq<seq<bv64>>, tt: Table, kids: seq<ChildMove>, k: nat,
                   alpha: int, beta: int, depth: nat, b: int, value: int, best: int): LoopState
    requires ValidTable(zt) && AllPlayable(kids) && k <= |kids| && depth >= 1
    decreases depth, 0, |kids| - k
  {
    if k == |kids| then LoopState(value, best, tt)
    else
      var o := AlphaBetaMemo(zt, tt, kids[k], alpha, b, depth - 1, MaxStep);
      var takes := o.result.score <= value;
      var value' := if takes then o.result.score else value;
      var best' := if takes then kids[k].move else best;
      if alpha >= beta then LoopState(value', best', o.table)
      else MinLoop(zt, o.table, kids, k + 1, alpha, beta, depth, Min(b, value'), value', best')
  }

  /**
   * One round of the MAX loop on child k, whose search gave result r and
   * table after: the loop ends with value' and best' or goes on from
   * child k + 1 (a helper for the loop of `MaxChildren`).
   */
  lemma MaxLoopStep(zt: seq<seq<bv64>>, tt: Table, kids: seq<ChildMove>, k: nat,
                    alpha: int, beta: int, depth: nat, a: int, value: int, best: int,
                    r: MoveScore, after: Table, value': int, best': int)
    requires ValidTable(zt) && AllPlayable(kids) && k < |kids| && depth >= 1
    requires Outcome(r, after) == AlphaBetaMemo(zt, tt, kids[k], a, beta, depth - 1, MinStep)
    requires value' == (if r.score >= value then r.score else value)
    requires best' == (if r.score >= value then kids[k].move else best)
    ensures alpha >= beta ==> MaxLoop(zt, tt, kids, k, alpha, beta, depth, a, value, best) == LoopState(value', best', after)
    ensures alpha < beta ==>
      MaxLoop(zt, tt, kids, k, alpha, beta, depth, a, value, best) == MaxLoop(zt, after, kids, k + 1, alpha, beta, depth, Max(a, value'), value', best')
  {
  }

  /** One round of the MIN loop on child k, whose search gave result r and table after. */
  lemma MinLoopStep(zt: seq<seq<bv64>>, tt: Table, kids: seq<ChildMove>, k: nat,
                    alpha: int, beta: int, depth: nat, b: int, value: int, best: int,
                    r: MoveScore, after: Table, value': int, best': int)
    requires ValidTable(zt) && AllPlayable(kids) && k < |kids| && depth >= 1
    requires Outcome(r, after) == AlphaBetaMemo(zt, tt, kids[k], alpha, b, depth - 1, MaxStep)
    requires value' == (if r.score <= value then r.score else value)
    requires best' == (if r.score <= value then kids[k].move else best)
    ensures alpha >= beta ==> MinLoop(zt, tt, kids, k, alpha, beta, depth, b, value, best) == LoopState(value', best', after)
    ensures alpha < beta ==>
      MinLoop(zt, tt, kids, k, alpha, beta, depth, b, value, best) == MinLoop(zt, after, kids, k + 1, alpha, beta, depth, Min(b, value'), value', best')
  {
  }

  /** The state of the MTD(f) driver. */
  datatype Driver = Driver(value: int, lowerbound: int, upperbound: int, move: MoveScore, table: Table)

  /** The beta of the next null window (beta - 1, beta): the guess, but above the lower bound. */
  function ProbeBeta(value: int, lowerbound: int): int {
    Max(value, lowerbound + 1)
  }

  /**
   * The loop of `MTDF`: probe with a null window, and take a result below
   * it as the new upper bound, otherwise as the new lower bound.
   */
  function MTDFLoop(zt: seq<seq<bv64>>, d: Driver, root: ChildMove, depth: nat): Driver
    requires ValidTable(zt) && Playable(root.state)
    requires d.lowerbound < d.upperbound ==> d.value <= d.upperbound
    decreases d.upperbound - d.lowerbound
  {
    if d.lowerbound >= d.upperbound then d
    else
      var beta := ProbeBeta(d.value, d.lowerbound);
      var o := AlphaBetaMemo(zt, d.table, root, beta - 1, beta, depth, MaxStep);
      var v := o.result.score;
      if v < beta then MTDFLoop(zt, Driver(v, d.lowerbound, v, o.result, o.table), root, depth)
      else MTDFLoop(zt, Driver(v, v, d.upperbound, o.result, o.table), root, depth)
  }

  /** `MTDF(state, guess, depth)`, starting from the whole int range and the placeholder move (-1, -1). */
  function MTDF(zt: seq<seq<bv64>>, tt: Table, root: ChildMove, guess: int, depth: nat): Driver
    requires ValidTable(zt) && Playable(root.state) && InRange(guess)
  {
    MTDFLoop(zt, Driver(guess, INT_MIN, INT_MAX, MoveScore(-1, -1), tt), root, depth)
  }

  /**
   * The outcome of iterative deepening: the best move found, the last
   * depth searched and the table left behind.
   */
  datatype Deepened = Deepened(best: MoveScore, depth: int, table: Table)

  /** `timeUp()` on its n-th call, from a given sequence of answers (true once they run out). */
  predicate TimeUp(clock: seq<bool>, n: int) {
    0 <= n < |clock| ==> clock[n]
  }

  /**
   * The deepening loop of `move` after depth `depth` has been searched:
   * while depth < MAX_SEARCH_DEPTH and time is left, search one ply
   * deeper with the current guess, then take the new score as the guess.
   */
  function DeepenLoop(zt: seq<seq<bv64>>, tt: Table, root: ChildMove, depth: nat, guess: int,
                      best: MoveScore, clock: seq<bool>): Deepened
    requires ValidTable(zt) && Playable(root.state) && TableInRange(tt) && InRange(guess)
    decreases MAX_SEARCH_DEPTH - depth
  {
    if depth < MAX_SEARCH_DEPTH && !TimeUp(clock, depth - 1) then
      var m := MTDF(zt, tt, root, guess, depth + 1);
      MTDFInRange(zt, Driver(guess, INT_MIN, INT_MAX, MoveScore(-1, -1), tt), root, depth + 1);
      DeepenLoop(zt, m.table, root, depth + 1, m.move.score, m.move, clock)
    else
      Deepened(best, depth, tt)
  }

  /** `move(board)`: MTD(f) at depth 1 with guess 0, then the deepening loop. */
  function MoveSearch(zt: seq<seq<bv64>>, tt: Table, board: Board, clock: seq<bool>): Deepened
    requires ValidTable(zt) && Playable(board) && TableInRange(tt)
  {
    var root := ChildMove(ROOT_LABEL, board);
    var first := MTDF(zt, tt, root, 0, 1);
    MTDFInRange(zt, Driver(0, INT_MIN, INT_MAX, MoveScore(-1, -1), tt), root, 1);
    DeepenLoop(zt, first.table, root, 1, 0, first.move, clock)
  }

  // ---------------------------------------------------------------------
  // Scores and table bounds stay Java ints.

  /**
   * Every score the search returns is a Java int, and a table whose
   * bounds are Java ints keeps them so.
   */
  lemma {:induction false} AlphaBetaInRange(zt: seq<seq<bv64>>, tt: Table, node: ChildMove, alpha: int, beta: int, depth: nat, ply: Ply)
    requires ValidTable(zt) && Playable(node.state) && TableInRange(tt)
    ensures var o := AlphaBetaMemo(zt, tt, node, alpha, beta, depth, ply);
      InRange(o.result.score) && TableInRange(o.table)
    decreases depth, 1, 2
  {
    if depth == 0 || Terminal(node.state) {
      EvaluateBounded(node.state);
    } else {
      var h := Key(zt, node.state);
      LookupInRange(tt, node.move, h, depth, alpha, beta);
      match Lookup(tt, node.move, h, depth, alpha, beta)
      case Cutoff(score) =>
      case Window(a, b) =>
        assert AlphaBetaMemo(zt, tt, node, alpha, beta, depth, ply) == SearchChildren(zt, tt, node, h, a, b, depth, ply);
        KidsPlayable(MTDFRules, node, ply);
        var kids := ChildrenOf(MTDFRules, node, ply, false);
        if ply == MaxStep {
          MaxLoopInRange(zt, tt, kids, 0, a, b, depth, a, INT_MIN, 0);
          var l := MaxLoop(zt, tt, kids, 0, a, b, depth, a, INT_MIN, 0);
          StoreInRange(l.table, h, depth, a, b, l.value);
          assert SearchChildren(zt, tt, node, h, a, b, depth, ply) ==
            Outcome(MoveScore(l.best, l.value), StoreEntry(l.table, h, depth, a, b, l.value));
        } else {
          MinLoopInRange(zt, tt, kids, 0, a, b, depth, b, INT_MAX, 0);
          var l := MinLoop(zt, tt, kids, 0, a, b, depth, b, INT_MAX, 0);
          StoreInRange(l.table, h, depth, a, b, l.value);
          assert SearchChildren(zt, tt, node, h, a, b, depth, ply) ==
            Outcome(MoveScore(l.best, l.value), StoreEntry(l.table, h, depth, a, b, l.value));
        }
    }
  }

  lemma {:induction false} MaxLoopInRange(zt: seq<seq<bv64>>, tt: Table, kids: seq<ChildMove>, k: nat,
                                          alpha: int, beta: int, depth: nat, a: int, value: int, best: int)
    requires ValidTable(zt) && AllPlayable(kids) && k <= |kids| && depth >= 1
    requires TableInRange(tt) && InRange(value)
    ensures var l := MaxLoop(zt, tt, kids, k, alpha, beta, depth, a, value, best);
      InRange(l.value) && TableInRange(l.table)
    decreases depth, 0, |kids| - k
  {
    if k < |kids| {
      AlphaBetaInRange(zt, tt, kids[k], a, beta, depth - 1, MinStep);
      var o := AlphaBetaMemo(zt, tt, kids[k], a, beta, depth - 1, MinStep);
      var value' := if o.result.score >= value then o.result.score else value;
      var best' := if o.result.score >= value then kids[k].move else best;
      if alpha < beta {
        MaxLoopInRange(zt, o.table, kids, k + 1, alpha, beta, depth, Max(a, value'), value', best');
      }
    }
  }

  lemma {:induction false} MinLoopInRange(zt: seq<seq<bv64>>, tt: Table, kids: seq<ChildMove>, k: nat,
                                          alpha: int, beta: int, depth: nat, b: int, value: int, best: int)
    requires ValidTable(zt) && AllPlayable(kids) && k <= |kids| && depth >= 1
    requires TableInRange(tt) && InRange(value)
    ensures var l := MinLoop(zt, tt, kids, k, alpha, beta, depth, b, value, best);
      InRange(l.value) && TableInRange(l.table)
    decreases depth, 0, |kids| - k
  {
    if k < |kids| {
      AlphaBetaInRange(zt, tt, kids[k], alpha, b, depth - 1, MaxStep);
      var o := AlphaBetaMemo(zt, tt, kids[k], alpha, b, depth - 1, MaxStep);
      var value' := if o.result.score <= value then o.result.score else value;
      var best' := if o.result.score <= value then kids[k].move else best;
      if alpha < beta {
        MinLoopInRange(zt, o.table, kids, k + 1, alpha, beta, depth, Min(b, value'), value', best');
      }
    }
  }

  /** The MTD(f) driver keeps its move's score, its bounds' table and its guess Java ints. */
  lemma {:induction false} MTDFInRange(zt: seq<seq<bv64>>, d: Driver, root: ChildMove, depth: nat)
    requires ValidTable(zt) && Playable(root.state)
    requires d.lowerbound < d.upperbound ==> d.value <= d.upperbound
    requires TableInRange(d.table) && InRange(d.value) && InRange(d.move.score)
    ensures var r := MTDFLoop(zt, d, root, depth);
      TableInRange(r.table) && InRange(r.move.score)
    decreases d.upperbound - d.lowerbound
  {
    if d.lowerbound < d.upperbound {
      var beta := ProbeBeta(d.value, d.lowerbound);
      AlphaBetaInRange(zt, d.table, root, beta - 1, beta, depth, MaxStep);
      var o := AlphaBetaMemo(zt, d.table, root, beta - 1, beta, depth, MaxStep);
      var v := o.result.score;
      if v < beta {
        MTDFInRange(zt, Driver(v, d.lowerbound, v, o.result, o.table), root, depth);
      } else {
        MTDFInRange(zt, Driver(v, v, d.upperbound, o.result, o.table), root, depth);
      }
    }
  }

  // ---------------------------------------------------------------------
  // The move returned at the root.

  /**
   * The best move of a MAX loop is the label of an examined child, once
   * one child has been examined from the start value Integer.MIN_VALUE.
   */
  lemma {:induction false} MaxLoopBest(zt: seq<seq<bv64>>, tt: Table, kids: seq<ChildMove>, k: nat,
                                       alpha: int, beta: int, depth: nat, a: int, value: int, best: int,
                                       labels: set<int>)
    requires ValidTable(zt) && AllPlayable(kids) && k <= |kids| && depth >= 1
    requires TableInRange(tt) && InRange(value)
    requires forall c :: c in kids ==> c.move in labels
    requires best in labels || (value == INT_MIN && k < |kids|)
    ensures MaxLoop(zt, tt, kids, k, alpha, beta, depth, a, value, best).best in labels
    decreases |kids| - k
  {
    if k < |kids| {
      AlphaBetaInRange(zt, tt, kids[k], a, beta, depth - 1, MinStep);
      var o := AlphaBetaMemo(zt, tt, kids[k], a, beta, depth - 1, MinStep);
      var value' := if o.result.score >= value then o.result.score else value;
      var best' := if o.result.score >= value then kids[k].move else best;
      assert kids[k] in kids;
      if alpha < beta {
        MaxLoopBest(zt, o.table, kids, k + 1, alpha, beta, depth, Max(a, value'), value', best', labels);
      }
    }
  }

  /**
   * The root (label -10) never consults the table; on a board still in
   * play and at depth >= 1, the search returns a non-empty house 0..5.
   */
  lemma RootMoveLegal(zt: seq<seq<bv64>>, tt: Table, b: Board, alpha: int, beta: int, depth: nat)
    requires ValidTable(zt) && Playable(b) && !Terminal(b) && depth >= 1 && TableInRange(tt)
    ensures var root := ChildMove(ROOT_LABEL, b);
      Lookup(tt, root.move, Key(zt, b), depth, alpha, beta) == Window(alpha, beta) &&
      LegalMove(b, AlphaBetaMemo(zt, tt, root, alpha, beta, depth, MaxStep).result.move)
  {
    var root := ChildMove(ROOT_LABEL, b);
    var kids := ChildrenOf(MTDFRules, root, MaxStep, false);
    NonTerminalHasChild(root, MaxStep, false);
    ChildrenLabels(MTDFRules, root, MaxStep);
    KidsPlayable(MTDFRules, root, MaxStep);
    var labels := set m | 0 <= m < 6 && b[m] > 0;
    MaxLoopBest(zt, tt, kids, 0, alpha, beta, depth, alpha, INT_MIN, 0, labels);
    var h := Key(zt, b);
    assert AlphaBetaMemo(zt, tt, root, alpha, beta, depth, MaxStep) == SearchChildren(zt, tt, root, h, alpha, beta, depth, MaxStep);
    assert SearchChildren(zt, tt, root, h, alpha, beta, depth, MaxStep).result.move ==
      MaxLoop(zt, tt, kids, 0, alpha, beta, depth, alpha, INT_MIN, 0).best;
  }

  /**
   * A probe of the driver: while lowerbound < upperbound (and the value is
   * at most upperbound), the null window (beta - 1, beta) has
   * lowerbound < beta <= upperbound, so any result either lowers
   * upperbound or raises lowerbound.
   */
  lemma ProbeProgress(value: int, lowerbound: int, upperbound: int, v: int)
    requires lowerbound < upperbound && value <= upperbound
    ensures var beta := ProbeBeta(value, lowerbound);
      lowerbound < beta <= upperbound &&
      (v < beta ==> v < upperbound) && (v >= beta ==> v > lowerbound)
  {
  }

  /** The driver stops only once lowerbound >= upperbound. */
  lemma {:induction false} MTDFLoopEnds(zt: seq<seq<bv64>>, d: Driver, root: ChildMove, depth: nat)
    requires ValidTable(zt) && Playable(root.state)
    requires d.lowerbound < d.upperbound ==> d.value <= d.upperbound
    ensures var r := MTDFLoop(zt, d, root, depth);
      r.lowerbound >= r.upperbound &&
      d.lowerbound <= r.lowerbound && r.upperbound <= d.upperbound
    decreases d.upperbound - d.lowerbound
  {
    if d.lowerbound < d.upperbound {
      var beta := ProbeBeta(d.value, d.lowerbound);
      var o := AlphaBetaMemo(zt, d.table, root, beta - 1, beta, depth, MaxStep);
      var v := o.result.score;
      ProbeProgress(d.value, d.lowerbound, d.upperbound, v);
      if v < beta {
        MTDFLoopEnds(zt, Driver(v, d.lowerbound, v, o.result, o.table), root, depth);
      } else {
        MTDFLoopEnds(zt, Driver(v, v, d.upperbound, o.result, o.table), root, depth);
      }
    }
  }

  /**
   * The driver returns the move of its last probe: from the root of a
   * board still in play, a non-empty house 0..5.
   */
  lemma {:induction false} MTDFLoopMove(zt: seq<seq<bv64>>, d: Driver, b: Board, depth: nat)
    requires ValidTable(zt) && Playable(b) && !Terminal(b) && depth >= 1
    requires d.lowerbound < d.upperbound ==> d.value <= d.upperbound
    requires TableInRange(d.table)
    requires d.lowerbound < d.upperbound || LegalMove(b, d.move.move)
    ensures LegalMove(b, MTDFLoop(zt, d, ChildMove(ROOT_LABEL, b), depth).move.move)
    decreases d.upperbound - d.lowerbound
  {
    var root := ChildMove(ROOT_LABEL, b);
    if d.lowerbound < d.upperbound {
      var beta := ProbeBeta(d.value, d.lowerbound);
      RootMoveLegal(zt, d.table, b, beta - 1, beta, depth);
      AlphaBetaInRange(zt, d.table, root, beta - 1, beta, depth, MaxStep);
      var o := AlphaBetaMemo(zt, d.table, root, beta - 1, beta, depth, MaxStep);
      var v := o.result.score;
      if v < beta {
        MTDFLoopMove(zt, Driver(v, d.lowerbound, v, o.result, o.table), b, depth);
      } else {
        MTDFLoopMove(zt, Driver(v, v, d.upperbound, o.result, o.table), b, depth);
      }
    }
  }

  /**
   * Iterative deepening never goes past MAX_SEARCH_DEPTH and keeps a
   * legal move.
   */
  lemma {:induction false} DeepenLoopMove(zt: seq<seq<bv64>>, tt: Table, b: Board, depth: nat, guess: int,
                                          best: MoveScore, clock: seq<bool>)
    requires ValidTable(zt) && Playable(b) && !Terminal(b) && TableInRange(tt) && InRange(guess)
    requires 1 <= depth <= MAX_SEARCH_DEPTH && LegalMove(b, best.move)
    ensures var r := DeepenLoop(zt, tt, ChildMove(ROOT_LABEL, b), depth, guess, best, clock);
      depth <= r.depth <= MAX_SEARCH_DEPTH && LegalMove(b, r.best.move)
    decreases MAX_SEARCH_DEPTH - depth
  {
    var root := ChildMove(ROOT_LABEL, b);
    if depth < MAX_SEARCH_DEPTH && !TimeUp(clock, depth - 1) {
      var d := Driver(guess, INT_MIN, INT_MAX, MoveScore(-1, -1), tt);
      MTDFInRange(zt, d, root, depth + 1);
      MTDFLoopMove(zt, d, b, depth + 1);
      var m := MTDF(zt, tt, root, guess, depth + 1);
      DeepenLoopMove(zt, m.table, b, depth + 1, m.move.score, m.move, clock);
    }
  }

  /**
   * `move`: on a board still in play it answers a non-empty house 0..5,
   * after searching to a depth between 1 and MAX_SEARCH_DEPTH.
   */
  lemma MoveSearchLegal(zt: seq<seq<bv64>>, tt: Table, b: Board, clock: seq<bool>)
    requires ValidTable(zt) && Playable(b) && !Terminal(b) && TableInRange(tt)
    ensures var r := MoveSearch(zt, tt, b, clock);
      LegalMove(b, r.best.move) && 1 <= r.depth <= MAX_SEARCH_DEPTH && TableInRange(r.table)
  {
    var root := ChildMove(ROOT_LABEL, b);
    var d := Driver(0, INT_MIN, INT_MAX, MoveScore(-1, -1), tt);
    MTDFInRange(zt, d, root, 1);
    MTDFLoopMove(zt, d, b, 1);
    var first := MTDF(zt, tt, root, 0, 1);
    DeepenLoopMove(zt, first.table, b, 1, 0, first.move, clock);
    DeepenInRange(zt, first.table, root, 1, 0, first.move, clock);
  }

  /** Whatever the board, the search leaves every bound of the table a Java int. */
  lemma MoveSearchInRange(zt: seq<seq<bv64>>, tt: Table, b: Board, clock: seq<bool>)
    requires ValidTable(zt) && Playable(b) && TableInRange(tt)
    ensures TableInRange(MoveSearch(zt, tt, b, clock).table)
  {
    var root := ChildMove(ROOT_LABEL, b);
    MTDFInRange(zt, Driver(0, INT_MIN, INT_MAX, MoveScore(-1, -1), tt), root, 1);
    var first := MTDF(zt, tt, root, 0, 1);
    DeepenInRange(zt, first.table, root, 1, 0, first.move, clock);
  }

  lemma {:induction false} DeepenInRange(zt: seq<seq<bv64>>, tt: Table, root: ChildMove, depth: nat, guess: int,
                                         best: MoveScore, clock: seq<bool>)
    requires ValidTable(zt) && Playable(root.state) && TableInRange(tt) && InRange(guess)
    ensures TableInRange(DeepenLoop(zt, tt, root, depth, guess, best, clock).table)
    decreases MAX_SEARCH_DEPTH - depth
  {
    if depth < MAX_SEARCH_DEPTH && !TimeUp(clock, depth - 1) {
      var d := Driver(guess, INT_MIN, INT_MAX, MoveScore(-1, -1), tt);
      MTDFInRange(zt, d, root, depth + 1);
      var m := MTDF(zt, tt, root, guess, depth + 1);
      DeepenInRange(zt, m.table, root, depth + 1, m.move.score, m.move, clock);
    }
  }

  // ---------------------------------------------------------------------
  // The prune on the entry window.

  /** North plays house 7 of the MIN node of EmptyWindowFalseBound: its last seed lands in house 1, and nothing is captured. */
  lemma FalseBoundFirstSow()
    ensures var b := [1, 1, 1, 1, 1, 1, 0, 2, 1, 0, 0, 0, 0, 0];
      var c7 := [2, 2, 1, 1, 1, 1, 0, 0, 1, 0, 0, 0, 0, 0];
      WellFormed(b) && WellFormed(c7) &&
      Sow(OnlyLowHouses, b, 7) == Sown(c7, 1) && Capture(MinStep, c7, 1) == c7
  {
    var b := [1, 1, 1, 1, 1, 1, 0, 2, 1, 0, 0, 0, 0, 0];
    var c7 := [2, 2, 1, 1, 1, 1, 0, 0, 1, 0, 0, 0, 0, 0];
    assert b[7 := 0][0 := 2][1 := 2] == c7;
  }

  /** North plays house 8: its one seed lands in house 0, and nothing is captured. */
  lemma FalseBoundSecondSow()
    ensures var b := [1, 1, 1, 1, 1, 1, 0, 2, 1, 0, 0, 0, 0, 0];
      var c8 := [2, 1, 1, 1, 1, 1, 0, 2, 0, 0, 0, 0, 0, 0];
      WellFormed(b) && WellFormed(c8) &&
      Sow(OnlyLowHouses, b, 8) == Sown(c8, 0) && Capture(MinStep, c8, 0) == c8
  {
    var b := [1, 1, 1, 1, 1, 1, 0, 2, 1, 0, 0, 0, 0, 0];
    var c8 := [2, 1, 1, 1, 1, 1, 0, 2, 0, 0, 0, 0, 0, 0];
    assert b[8 := 0][0 := 2] == c8;
  }

  /** The two children of the MIN node of EmptyWindowFalseBound. */
  lemma FalseBoundChildren()
    ensures var b := [1, 1, 1, 1, 1, 1, 0, 2, 1, 0, 0, 0, 0, 0];
      var c7 := [2, 2, 1, 1, 1, 1, 0, 0, 1, 0, 0, 0, 0, 0];
      var c8 := [2, 1, 1, 1, 1, 1, 0, 2, 0, 0, 0, 0, 0, 0];
      Playable(b) && !Terminal(b) && WellFormed(c7) && WellFormed(c8) &&
      ChildrenOf(MTDFRules, ChildMove(2, b), MinStep, false) == [ChildMove(7, c7), ChildMove(8, c8)]
  {
    var b := [1, 1, 1, 1, 1, 1, 0, 2, 1, 0, 0, 0, 0, 0];
    var node := ChildMove(2, b);
    HouseSums(b);
    FalseBoundFirstSow();
    FalseBoundSecondSow();
    assert ChildrenFrom(MTDFRules, node, MinStep, false, 9) == [] by {
      ChildrenFromNone(MTDFRules, node, MinStep, false, 9);
    }
  }

  /** `evaluate` of the first child: both sides' houses are worth 8, no seed is stored. */
  lemma FalseBoundFirstValue()
    ensures var c7 := [2, 2, 1, 1, 1, 1, 0, 0, 1, 0, 0, 0, 0, 0];
      WellFormed(c7) && Evaluate(c7) == 0
  {
    var c := [2, 2, 1, 1, 1, 1, 0, 0, 1, 0, 0, 0, 0, 0];
    HouseSums(c);
    assert HouseValues(c, 0, 3) == 5;
    assert HouseValues(c, 0, 6) == 8;
    assert HouseValues(c, 7, 10) == 3;
    assert HouseValues(c, 7, 13) == 8;
  }

  /** `evaluate` of the second child: the mover's houses are worth 7, the opponent's 8. */
  lemma FalseBoundSecondValue()
    ensures var c8 := [2, 1, 1, 1, 1, 1, 0, 2, 0, 0, 0, 0, 0, 0];
      WellFormed(c8) && Evaluate(c8) == -1
  {
    var c := [2, 1, 1, 1, 1, 1, 0, 2, 0, 0, 0, 0, 0, 0];
    HouseSums(c);
    assert HouseValues(c, 0, 3) == 4;
    assert HouseValues(c, 0, 6) == 7;
    assert HouseValues(c, 7, 10) == 4;
    assert HouseValues(c, 7, 13) == 8;
  }

  /**
   * A node entered with alpha >= beta, which the MAX loop hands to its
   * later children after a fail-high since it does not stop there,
   * searches only its first child. Here a MIN node at depth 1 has two
   * children, scored 0 and -1 by `evaluate`, so its value is -1; yet with
   * an empty table, whatever the Zobrist table, the search returns 0 and
   * stores 0 as the node's lower bound, a bound that is false.
   */
  lemma EmptyWindowFalseBound(zt: seq<seq<bv64>>)
    requires ValidTable(zt)
    ensures var b := [1, 1, 1, 1, 1, 1, 0, 2, 1, 0, 0, 0, 0, 0];
      Playable(b) && !Terminal(b) &&
      var kids := ChildrenOf(MTDFRules, ChildMove(2, b), MinStep, false);
      |kids| == 2 && Evaluate(kids[0].state) == 0 && Evaluate(kids[1].state) == -1
    ensures var b := [1, 1, 1, 1, 1, 1, 0, 2, 1, 0, 0, 0, 0, 0];
      var o := AlphaBetaMemo(zt, map[], ChildMove(2, b), -1, -1, 1, MinStep);
      var h := Key(zt, b);
      o.result == MoveScore(7, 0) && h in o.table && o.table[h].depth == 1 && o.table[h].lowerbound == 0
  {
    FalseBoundChildren();
    FalseBoundFirstValue();
    FalseBoundSecondValue();
    var b := [1, 1, 1, 1, 1, 1, 0, 2, 1, 0, 0, 0, 0, 0];
    var node := ChildMove(2, b);
    var kids := ChildrenOf(MTDFRules, node, MinStep, false);
    KidsPlayable(MTDFRules, node, MinStep);
    var h := Key(zt, b);
    assert Lookup(map[], node.move, h, 1, -1, -1) == Window(-1, -1);
    assert AlphaBetaMemo(zt, map[], kids[0], -1, -1, 0, MaxStep) == Outcome(MoveScore(7, 0), map[]);
    assert MinLoop(zt, map[], kids, 0, -1, -1, 1, -1, INT_MAX, 0) == LoopState(0, 7, map[]);
    assert AlphaBetaMemo(zt, map[], node, -1, -1, 1, MinStep) ==
      Outcome(MoveScore(7, 0), StoreEntry(map[], h, 1, -1, -1, 0));
  }
}
