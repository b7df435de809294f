/**
 * MancalaImp's hand-rolled scorers for the searching side's own turn:
 * `move` plays each non-empty house 0..5 at the root, `extraTurnValue`
 * does the same after a move that ended in store 6. A move without an
 * extra turn is scored by a full-window `alphabeta` in which, as written,
 * MAX moves again.
 */
module ImpRoot {
  import opened Board
  import opened Sowing
  import opened RuleEngine
  import opened Evaluation
  import opened ImpSearch

  /** The depth `move` searches to. */
  const ROOT_DEPTH: nat := 10

  /**
   * The value of playing the non-empty house i: an extra turn is scored
   * by `extraTurnValue` at `depth`, any other move (after the capture
   * rule) by `alphabeta` at `searchDepth` with MAX to move.
   */
  function PlayValue(b: Board, i: int, depth: nat, searchDepth: nat): int
    requires Playable(b) && 0 <= i < 6 && b[i] > 0 && depth >= 1
    decreases Unstored(b, MaxStep), 0
  {
    var s := Sow(SkipSlot13, b, i);
    SowConserves(SkipSlot13, b, i);
    if s.last == 6 then
      ExtraTurnShrinks(ImpRules, b, MaxStep, i);
      ExtraTurnValue(s.board, depth)
    else
      CaptureConserves(MaxStep, s.board, s.last);
      AlphaBeta(Capture(MaxStep, s.board, s.last), searchDepth, INT_MIN, INT_MAX, MaxStep)
  }

  /** `extraTurnValue(state, depth)`. */
  function ExtraTurnValue(b: Board, depth: nat): int
    requires Playable(b) && depth >= 1
    decreases Unstored(b, MaxStep), 2
  {
    ExtraFrom(b, 0, depth, INT_MIN)
  }

  /** The loop of `extraTurnValue` from house i on, with the running value. */
  function ExtraFrom(b: Board, i: int, depth: nat, value: int): int
    requires Playable(b) && 0 <= i <= 6 && depth >= 1
    decreases Unstored(b, MaxStep), 1, 6 - i
  {
    if i == 6 then value
    else if b[i] > 0 then
      var curr := PlayValue(b, i, depth, depth - 1);
      ExtraFrom(b, i + 1, depth, if curr >= value then curr else value)
    else ExtraFrom(b, i + 1, depth, value)
  }

  /**
   * The values `move` gives the houses 0..5 (the `curr` of its loop): a
   * non-empty house is played at the root depth, an empty one is never
   * compared.
   */
  function RootScores(b: Board, depth: nat): (r: seq<int>)
    requires Playable(b) && depth >= 1
    ensures |r| == 6
  {
    seq(6, j requires 0 <= j < 6 => if b[j] > 0 then PlayValue(b, j, depth, depth) else INT_MIN)
  }

  /** The loop of `move` from house i on, with the running value and best house. */
  function RootFrom(b: Board, scores: seq<int>, i: int, value: int, best: int): MoveScore
    requires |b| == 14 && |scores| == 6 && 0 <= i <= 6
    decreases 6 - i
  {
    if i == 6 then MoveScore(best, value)
    else if b[i] > 0 && scores[i] >= value then RootFrom(b, scores, i + 1, scores[i], i)
    else RootFrom(b, scores, i + 1, value, best)
  }

  /** `move(board)`: the house chosen, 0 when every house 0..5 is empty. */
  function ImpMove(b: Board): int
    requires Playable(b)
  {
    RootFrom(b, RootScores(b, ROOT_DEPTH), 0, INT_MIN, 0).move
  }

  /** Every value of the scorers is a Java int. */
  lemma {:induction false} PlayValueInRange(b: Board, i: int, depth: nat, searchDepth: nat)
    requires Playable(b) && 0 <= i < 6 && b[i] > 0 && depth >= 1
    ensures InRange(PlayValue(b, i, depth, searchDepth))
    decreases Unstored(b, MaxStep), 0
  {
    var s := Sow(SkipSlot13, b, i);
    SowConserves(SkipSlot13, b, i);
    if s.last == 6 {
      ExtraTurnShrinks(ImpRules, b, MaxStep, i);
      ExtraFromSpec(s.board, 0, depth, INT_MIN);
    } else {
      CaptureConserves(MaxStep, s.board, s.last);
      AlphaBetaInRange(Capture(MaxStep, s.board, s.last), searchDepth, INT_MIN, INT_MAX, MaxStep);
    }
  }

  /**
   * The loop of `extraTurnValue` returns the largest of its start value
   * and the values of the non-empty houses i..5, and from a Java int a
   * Java int; with no non-empty house left it keeps the start value.
   */
  lemma {:induction false} ExtraFromSpec(b: Board, i: int, depth: nat, value: int)
    requires Playable(b) && 0 <= i <= 6 && depth >= 1
    ensures value <= ExtraFrom(b, i, depth, value)
    ensures forall j :: i <= j < 6 && b[j] > 0 ==> PlayValue(b, j, depth, depth - 1) <= ExtraFrom(b, i, depth, value)
    ensures ExtraFrom(b, i, depth, value) == value ||
      exists j :: i <= j < 6 && b[j] > 0 && ExtraFrom(b, i, depth, value) == PlayValue(b, j, depth, depth - 1)
    ensures InRange(value) ==> InRange(ExtraFrom(b, i, depth, value))
    decreases Unstored(b, MaxStep), 1, 6 - i
  {
    if i < 6 {
      if b[i] > 0 {
        var curr := PlayValue(b, i, depth, depth - 1);
        PlayValueInRange(b, i, depth, depth - 1);
        ExtraFromSpec(b, i + 1, depth, if curr >= value then curr else value);
      } else {
        ExtraFromSpec(b, i + 1, depth, value);
      }
    }
  }

  /**
   * `extraTurnValue` is the maximum of the values of the non-empty houses
   * 0..5, and Integer.MIN_VALUE when they are all empty.
   */
  lemma ExtraTurnValueSpec(b: Board, depth: nat)
    requires Playable(b) && depth >= 1
    ensures forall j :: 0 <= j < 6 && b[j] > 0 ==> PlayValue(b, j, depth, depth - 1) <= ExtraTurnValue(b, depth)
    ensures ExtraTurnValue(b, depth) == INT_MIN ||
      exists j :: 0 <= j < 6 && b[j] > 0 && ExtraTurnValue(b, depth) == PlayValue(b, j, depth, depth - 1)
    ensures (forall j :: 0 <= j < 6 ==> b[j] == 0) ==> ExtraTurnValue(b, depth) == INT_MIN
    ensures InRange(ExtraTurnValue(b, depth))
  {
    ExtraFromSpec(b, 0, depth, INT_MIN);
    if forall j :: 0 <= j < 6 ==> b[j] == 0 {
      assert InRange(ExtraTurnValue(b, depth));
    }
  }

  /**
   * The loop of `move` from house i: its value is the largest of the
   * start value and the scores of the non-empty houses; when some
   * non-empty house reaches the start value, the house returned is the
   * last non-empty house attaining the result, and otherwise the start
   * house is kept.
   */
  lemma {:induction false} RootFromSpec(b: Board, scores: seq<int>, i: int, value: int, best: int)
    requires |b| == 14 && |scores| == 6 && 0 <= i <= 6
    ensures var r := RootFrom(b, scores, i, value, best);
      value <= r.score && forall j :: i <= j < 6 && b[j] > 0 ==> scores[j] <= r.score
    ensures var r := RootFrom(b, scores, i, value, best);
      (r == MoveScore(best, value) && forall j :: i <= j < 6 && b[j] > 0 ==> scores[j] < value) ||
      (i <= r.move < 6 && b[r.move] > 0 && scores[r.move] == r.score &&
       forall j :: r.move < j < 6 && b[j] > 0 ==> scores[j] < r.score)
    decreases 6 - i
  {
    if i < 6 {
      if b[i] > 0 && scores[i] >= value {
        RootFromSpec(b, scores, i + 1, scores[i], i);
        var r := RootFrom(b, scores, i + 1, scores[i], i);
        if r == MoveScore(i, scores[i]) {
          assert i <= r.move < 6 && b[r.move] > 0 && scores[r.move] == r.score;
        }
      } else {
        RootFromSpec(b, scores, i + 1, value, best);
        if forall j :: i + 1 <= j < 6 && b[j] > 0 ==> scores[j] < value {
          assert forall j :: i <= j < 6 && b[j] > 0 ==> scores[j] < value;
        }
      }
    }
  }

  /**
   * `move` answers with the last non-empty house of 0..5 whose value is
   * the largest, whenever some house 0..5 holds seeds.
   */
  lemma ImpMoveSpec(b: Board)
    requires Playable(b) && exists j :: 0 <= j < 6 && b[j] > 0
    ensures var m := ImpMove(b);
      LegalMove(b, m) &&
      (forall j :: 0 <= j < 6 && b[j] > 0 ==> PlayValue(b, j, ROOT_DEPTH, ROOT_DEPTH) <= PlayValue(b, m, ROOT_DEPTH, ROOT_DEPTH)) &&
      (forall j :: m < j < 6 && b[j] > 0 ==> PlayValue(b, j, ROOT_DEPTH, ROOT_DEPTH) < PlayValue(b, m, ROOT_DEPTH, ROOT_DEPTH))
  {
    var scores := RootScores(b, ROOT_DEPTH);
    var j :| 0 <= j < 6 && b[j] > 0;
    PlayValueInRange(b, j, ROOT_DEPTH, ROOT_DEPTH);
    assert scores[j] >= INT_MIN;
    RootFromSpec(b, scores, 0, INT_MIN, 0);
  }

  /**
   * A move that does not end in store 6 is scored with its true minimax
   * value (MAX to move), because its `alphabeta` call uses the full window.
   */
  lemma PlayValueExact(b: Board, i: int, depth: nat, searchDepth: nat)
    requires Playable(b) && 0 <= i < 6 && b[i] > 0 && depth >= 1
    requires Sow(SkipSlot13, b, i).last != 6
    ensures var s := Sow(SkipSlot13, b, i);
      WellFormed(s.board) && Playable(Capture(MaxStep, s.board, s.last)) &&
      PlayValue(b, i, depth, searchDepth) == ImpMinimax(Capture(MaxStep, s.board, s.last), searchDepth, MaxStep)
  {
    var s := Sow(SkipSlot13, b, i);
    SowConserves(SkipSlot13, b, i);
    CaptureConserves(MaxStep, s.board, s.last);
    FullWindowExact(Capture(MaxStep, s.board, s.last), searchDepth, MaxStep);
  }
}
