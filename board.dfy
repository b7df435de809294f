/**
 * The 14-slot Kalah board shared by all three search engines.
 * Slots 0..5 are the searching side's houses and slot 6 its store;
 * slots 7..12 are the opponent's houses and slot 13 its store.
 */
module Board {

  /** Java's Integer.MIN_VALUE and Integer.MAX_VALUE, used as score sentinels. */
  const INT_MIN: int := -0x8000_0000
  const INT_MAX: int := 0x7FFF_FFFF

  /** N_SEEDS: 3 seeds in each of the 12 houses. */
  const N_SEEDS: int := 36

  type Board = seq<int>

  /** The side to move: the searching agent (MAX) or its opponent (MIN). */
  datatype Ply = MaxStep | MinStep {
    function Other(): Ply {
      if this == MaxStep then MinStep else MaxStep
    }
  }

  /** A board together with the house that leads to it (ChildMove). */
  datatype ChildMove = ChildMove(move: int, state: Board)

  /** A score together with the move that attains it (MoveScore). */
  datatype MoveScore = MoveScore(move: int, score: int)

  predicate InRange(x: int) {
    INT_MIN <= x <= INT_MAX
  }

  function Max(x: int, y: int): int {
    if x >= y then x else y
  }

  function Min(x: int, y: int): int {
    if x <= y then x else y
  }

  /** Fourteen non-negative seed counts. */
  predicate WellFormed(b: Board) {
    |b| == 14 && forall k :: 0 <= k < 14 ==> b[k] >= 0
  }

  /** The boards the engines are built for: at most N_SEEDS seeds in all. */
  predicate Playable(b: Board) {
    WellFormed(b) && Total(b) <= N_SEEDS
  }

  /** All seeds on the board. */
  function Total(b: Board): int
    requires |b| == 14
  {
    b[0] + b[1] + b[2] + b[3] + b[4] + b[5] + b[6] +
    b[7] + b[8] + b[9] + b[10] + b[11] + b[12] + b[13]
  }

  /** A legal move for the searching side: a non-empty house 0..5. */
  predicate LegalMove(b: Board, m: int)
    requires |b| == 14
  {
    0 <= m < 6 && b[m] > 0
  }

  /** Seeds in slots lo..hi-1, summed as the counting loops of the source do. */
  function SlotSum(b: Board, lo: int, hi: int): int
    requires 0 <= lo <= hi <= |b|
    decreases hi - lo
  {
    if lo == hi then 0 else SlotSum(b, lo, hi - 1) + b[hi - 1]
  }

  /** Seeds in houses 0..5 (the searching side). */
  function SouthHouses(b: Board): int
    requires |b| == 14
  {
    SlotSum(b, 0, 6)
  }

  /** Seeds in houses 7..12 (the opponent). */
  function NorthHouses(b: Board): int
    requires |b| == 14
  {
    SlotSum(b, 7, 13)
  }

  /** The two sides' house sums written out slot by slot. */
  lemma HouseSums(b: Board)
    requires |b| == 14
    ensures SouthHouses(b) == b[0] + b[1] + b[2] + b[3] + b[4] + b[5]
    ensures NorthHouses(b) == b[7] + b[8] + b[9] + b[10] + b[11] + b[12]
  {
    assert SlotSum(b, 0, 3) == b[0] + b[1] + b[2];
    assert SlotSum(b, 7, 10) == b[7] + b[8] + b[9];
  }

  /** The game is over once either side's six houses are empty. */
  predicate Terminal(b: Board)
    requires |b| == 14
  {
    SouthHouses(b) == 0 || NorthHouses(b) == 0
  }

  /** The mover's store: 6 for MAX, 13 for MIN. */
  function Store(p: Ply): int {
    if p == MaxStep then 6 else 13
  }

  /** First house of the mover: houses are HouseBase(p) + 0..5. */
  function HouseBase(p: Ply): int {
    if p == MaxStep then 0 else 7
  }

  predicate OwnHouse(p: Ply, j: int) {
    HouseBase(p) <= j < HouseBase(p) + 6
  }

  /** Changing one slot changes the total by exactly the difference. */
  lemma TotalUpdate(b: Board, k: int, v: int)
    requires |b| == 14 && 0 <= k < 14
    ensures Total(b[k := v]) == Total(b) - b[k] + v
  {
  }

  /** No slot holds more seeds than the whole board. */
  lemma SlotAtMostTotal(b: Board, k: int)
    requires WellFormed(b) && 0 <= k < 14
    ensures 0 <= b[k] <= Total(b)
  {
  }

  /** A board is terminal exactly when one side's houses are all empty. */
  lemma TerminalIff(b: Board)
    requires WellFormed(b)
    ensures Terminal(b) <==>
      (forall k :: 0 <= k < 6 ==> b[k] == 0) || (forall k :: 7 <= k < 13 ==> b[k] == 0)
  {
    HouseSums(b);
  }

  /** On a non-terminal board the mover has a non-empty house. */
  lemma NonTerminalHasMove(b: Board, p: Ply) returns (i: int)
    requires WellFormed(b) && !Terminal(b)
    ensures OwnHouse(p, i) && b[i] > 0
  {
    TerminalIff(b);
    if p == MaxStep {
      i :| 0 <= i < 6 && b[i] != 0;
    } else {
      i :| 7 <= i < 13 && b[i] != 0;
    }
  }
}
