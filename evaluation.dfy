/**
 * Static evaluators: the heuristic `evaluate` of MTDFAgent, and the
 * material score that is MMAgent's `evaluate` and MancalaImp's `utility`.
 */
module Evaluation {
  import opened Board

  /** Seeds on the searching side (houses 0..5 and store 6) minus the opponent's (7..13). */
  function Material(b: Board): int
    requires |b| == 14
  {
    SlotSum(b, 0, 7) - SlotSum(b, 7, 14)
  }

  /** Value of house i in MTDFAgent's heuristic: an empty house facing seeds counts half of them plus one. */
  function HouseValue(b: Board, i: int): int
    requires WellFormed(b) && 0 <= i < 13
  {
    if b[i] == 0 && b[12 - i] > 0 then b[12 - i] / 2 + 1 else b[i]
  }

  /** The sum of HouseValue(b, k) over houses lo..hi-1: one of the two house loops of `evaluate`. */
  function HouseValues(b: Board, lo: int, hi: int): int
    requires WellFormed(b) && 0 <= lo <= hi <= 13
    decreases hi - lo
  {
    if lo == hi then 0 else HouseValues(b, lo, hi - 1) + HouseValue(b, hi - 1)
  }

  /** MTDFAgent's heuristic for a board that is still in play; stored seeds count double. */
  function Heuristic(b: Board): int
    requires WellFormed(b)
  {
    (HouseValues(b, 0, 6) + 2 * b[6]) - (HouseValues(b, 7, 13) + 2 * b[13])
  }

  /** MTDFAgent's `evaluate`: a win, draw or loss at the end of the game, the heuristic before. */
  function Evaluate(b: Board): int
    requires WellFormed(b)
  {
    if Terminal(b) then
      var d := Material(b);
      if d > 0 then 100 else if d < 0 then -100 else 0
    else
      Heuristic(b)
  }

  /** On a finished game, `evaluate` reports the sign of the material difference as 100, 0 or -100. */
  lemma EvaluateTerminal(b: Board)
    requires WellFormed(b) && Terminal(b)
    ensures Evaluate(b) == 100 <==> Material(b) > 0
    ensures Evaluate(b) == -100 <==> Material(b) < 0
    ensures Evaluate(b) == 0 <==> Material(b) == 0
  {
  }

  /** A house is worth no more than its own seeds plus those it faces. */
  lemma HouseValueBounds(b: Board, i: int)
    requires WellFormed(b) && 0 <= i < 13
    ensures 0 <= HouseValue(b, i) <= b[i] + b[12 - i]
  {
  }

  /** The seeds of houses lo..hi-1 and of the houses facing them. */
  function SeedsFacing(b: Board, lo: int, hi: int): int
    requires WellFormed(b) && 0 <= lo <= hi <= 13
    decreases hi - lo
  {
    if lo == hi then 0 else SeedsFacing(b, lo, hi - 1) + b[hi - 1] + b[12 - (hi - 1)]
  }

  /** A run of houses is worth no more than its own seeds plus those it faces. */
  lemma {:induction false} HouseValuesBounds(b: Board, lo: int, hi: int)
    requires WellFormed(b) && 0 <= lo <= hi <= 13
    ensures 0 <= HouseValues(b, lo, hi) <= SeedsFacing(b, lo, hi)
    decreases hi - lo
  {
    if lo < hi {
      HouseValuesBounds(b, lo, hi - 1);
      HouseValueBounds(b, hi - 1);
    }
  }

  /** Either side's six houses, with the houses they face, hold all seeds outside the stores. */
  lemma SeedsFacingSides(b: Board)
    requires WellFormed(b)
    ensures SeedsFacing(b, 0, 6) == SouthHouses(b) + NorthHouses(b)
    ensures SeedsFacing(b, 7, 13) == SouthHouses(b) + NorthHouses(b)
  {
    HouseSums(b);
    assert SeedsFacing(b, 0, 3) == b[0] + b[1] + b[2] + b[12] + b[11] + b[10];
    assert SeedsFacing(b, 0, 6) == SeedsFacing(b, 0, 3) + b[3] + b[4] + b[5] + b[9] + b[8] + b[7];
    assert SeedsFacing(b, 7, 10) == b[7] + b[8] + b[9] + b[5] + b[4] + b[3];
    assert SeedsFacing(b, 7, 13) == SeedsFacing(b, 7, 10) + b[10] + b[11] + b[12] + b[2] + b[1] + b[0];
  }

  /**
   * Before the end of the game, on a board with at most N_SEEDS seeds,
   * `evaluate` stays strictly between a loss (-100) and a win (100).
   */
  lemma {:induction false} EvaluateInPlay(b: Board)
    requires Playable(b) && !Terminal(b)
    ensures -100 < Evaluate(b) < 100
    ensures -2 * N_SEEDS <= Evaluate(b) <= 2 * N_SEEDS
  {
    HouseValuesBounds(b, 0, 6);
    HouseValuesBounds(b, 7, 13);
    SeedsFacingSides(b);
  }

  /** Scores MTDFAgent's search can see at a leaf. */
  lemma EvaluateBounded(b: Board)
    requires Playable(b)
    ensures -100 <= Evaluate(b) <= 100
  {
    if !Terminal(b) {
      EvaluateInPlay(b);
    }
  }

  /**
   * MMAgent's `evaluate` and MancalaImp's `utility`: the material
   * difference, replaced by Integer.MAX_VALUE / MIN_VALUE for a finished
   * game that is won / lost.
   */
  function MaterialScore(b: Board): int
    requires |b| == 14
  {
    var d := Material(b);
    if Terminal(b) && d > 0 then INT_MAX
    else if Terminal(b) && d < 0 then INT_MIN
    else d
  }

  /** On boards with at most N_SEEDS seeds the material difference is far from the sentinels. */
  lemma MaterialBounded(b: Board)
    requires Playable(b)
    ensures -N_SEEDS <= Material(b) <= N_SEEDS
  {
    HouseSums(b);
  }

  /**
   * The sentinels mark exactly the finished games that are won or lost;
   * every other board scores its material difference.
   */
  lemma MaterialScoreSentinels(b: Board)
    requires Playable(b)
    ensures MaterialScore(b) == INT_MAX <==> Terminal(b) && Material(b) > 0
    ensures MaterialScore(b) == INT_MIN <==> Terminal(b) && Material(b) < 0
    ensures INT_MIN < MaterialScore(b) < INT_MAX ==> MaterialScore(b) == Material(b)
    ensures InRange(MaterialScore(b))
  {
    MaterialBounded(b);
  }

  /** On a finished game the two evaluators agree on who has won. */
  lemma EvaluatorsAgreeAtEnd(b: Board)
    requires Playable(b) && Terminal(b)
    ensures Evaluate(b) > 0 <==> MaterialScore(b) > 0
    ensures Evaluate(b) < 0 <==> MaterialScore(b) < 0
    ensures Evaluate(b) == 0 <==> MaterialScore(b) == 0
  {
  }
}
