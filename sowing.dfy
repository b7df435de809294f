/**
 * Sowing and the empty-house capture. The three engines sow the same way
 * (empty the chosen house, then drop one seed per slot going forward
 * modulo 14) but differ in which slots may receive a seed.
 */
module Sowing {
  import opened Board

  /**
   * Which slots a sowing side may drop seeds into.
   *   SkipSlot13:     every slot but the opponent's store 13 (MAX in all engines);
   *   OnlyLowHouses:  houses 0..5 only (MIN in MTDFAgent and MMAgent, as written);
   *   SkipSlot6:      every slot but store 6 (MIN in MancalaImp).
   */
  datatype Placement = SkipSlot13 | OnlyLowHouses | SkipSlot6

  predicate Placeable(p: Placement, j: int) {
    match p
    case SkipSlot13 => j != 13
    case OnlyLowHouses => j < 6
    case SkipSlot6 => j != 6
  }

  /** The slot after j that receives the next seed. */
  function Next(p: Placement, j: int): int
    requires 0 <= j < 14
  {
    match p
    case SkipSlot13 => if j >= 12 then 0 else j + 1
    case OnlyLowHouses => if j < 5 then j + 1 else 0
    case SkipSlot6 => if j == 5 then 7 else (j + 1) % 14
  }

  /** Number of steps of the sowing loop from j to Next(p, j). */
  function Gap(p: Placement, j: int): int
    requires 0 <= j < 14
  {
    var n := Next(p, j);
    if n > j then n - j else n + 14 - j
  }

  /**
   * Next(p, j) is the first placeable slot met going forward from j: the
   * loop either places in (j + 1) % 14, or skips it and then behaves as
   * from there, strictly closer to its next placement.
   */
  lemma NextStep(p: Placement, j: int)
    requires 0 <= j < 14
    ensures 0 <= Next(p, j) < 14 && Placeable(p, Next(p, j))
    ensures Placeable(p, (j + 1) % 14) ==> Next(p, j) == (j + 1) % 14
    ensures !Placeable(p, (j + 1) % 14) ==>
      Next(p, j) == Next(p, (j + 1) % 14) && 0 <= Gap(p, (j + 1) % 14) < Gap(p, j)
  {
  }

  /** The board after sowing, and the slot that took the last seed. */
  datatype Sown = Sown(board: Board, last: int)

  /** Drop `seeds` seeds one by one after slot j. */
  function SowFrom(p: Placement, b: Board, j: int, seeds: nat): (r: Sown)
    requires |b| == 14 && 0 <= j < 14
    ensures |r.board| == 14 && 0 <= r.last < 14
    decreases seeds
  {
    if seeds == 0 then Sown(b, j)
    else
      NextStep(p, j);
      var k := Next(p, j);
      SowFrom(p, b[k := b[k] + 1], k, seeds - 1)
  }

  /** Sowing adds exactly `seeds` seeds, and the last one lands in a placeable slot. */
  lemma {:induction false} SowFromCount(p: Placement, b: Board, j: int, seeds: nat)
    requires |b| == 14 && 0 <= j < 14
    ensures Total(SowFrom(p, b, j, seeds).board) == Total(b) + seeds
    ensures seeds > 0 ==> Placeable(p, SowFrom(p, b, j, seeds).last)
    ensures seeds == 0 ==> SowFrom(p, b, j, seeds).last == j
    decreases seeds
  {
    if seeds > 0 {
      NextStep(p, j);
      var k := Next(p, j);
      TotalUpdate(b, k, b[k] + 1);
      SowFromCount(p, b[k := b[k] + 1], k, seeds - 1);
    }
  }

  /**
   * No slot loses seeds, a slot that may not receive seeds keeps its count,
   * and the last slot gains at least one seed.
   */
  lemma {:induction false} SowFromSlot(p: Placement, b: Board, j: int, seeds: nat, k: int)
    requires |b| == 14 && 0 <= j < 14 && 0 <= k < 14
    ensures SowFrom(p, b, j, seeds).board[k] >= b[k]
    ensures !Placeable(p, k) ==> SowFrom(p, b, j, seeds).board[k] == b[k]
    ensures seeds > 0 && k == SowFrom(p, b, j, seeds).last ==> SowFrom(p, b, j, seeds).board[k] > b[k]
    decreases seeds
  {
    if seeds > 0 {
      NextStep(p, j);
      var n := Next(p, j);
      var b' := b[n := b[n] + 1];
      SowFromSlot(p, b', n, seeds - 1, k);
      if seeds - 1 == 0 {
        assert SowFrom(p, b', n, 0).last == n;
      }
    }
  }

  /** Sow house i: empty it and drop its seeds forward. */
  function Sow(p: Placement, b: Board, i: int): (r: Sown)
    requires WellFormed(b) && 0 <= i < 14
    ensures |r.board| == 14 && 0 <= r.last < 14
  {
    SowFrom(p, b[i := 0], i, b[i])
  }

  /** Sowing keeps every seed and leaves a well-formed board. */
  lemma SowConserves(p: Placement, b: Board, i: int)
    requires WellFormed(b) && 0 <= i < 14
    ensures WellFormed(Sow(p, b, i).board)
    ensures Total(Sow(p, b, i).board) == Total(b)
    ensures b[i] > 0 ==> Placeable(p, Sow(p, b, i).last)
  {
    TotalUpdate(b, i, 0);
    SowFromCount(p, b[i := 0], i, b[i]);
    forall k | 0 <= k < 14
      ensures Sow(p, b, i).board[k] >= 0
    {
      SowFromSlot(p, b[i := 0], i, b[i], k);
    }
  }

  /**
   * Seed by seed, sowing house i never takes seeds from another slot,
   * never changes a slot it may not drop into, empties house i unless it
   * is sown into again, and feeds the last slot.
   */
  lemma SowSlot(p: Placement, b: Board, i: int, k: int)
    requires WellFormed(b) && 0 <= i < 14 && 0 <= k < 14
    ensures k != i ==> Sow(p, b, i).board[k] >= b[k]
    ensures k != i && !Placeable(p, k) ==> Sow(p, b, i).board[k] == b[k]
    ensures k == i && !Placeable(p, k) ==> Sow(p, b, i).board[k] == 0
    ensures b[i] > 0 && k == Sow(p, b, i).last ==> Sow(p, b, i).board[k] >= 1
    ensures b[i] > 0 && k == Sow(p, b, i).last && k != i ==> Sow(p, b, i).board[k] > b[k]
  {
    SowFromSlot(p, b[i := 0], i, b[i], k);
  }

  /**
   * The sowing loop of `children` (and of MancalaImp's `move` and
   * `extraTurnValue`) on a fresh copy of the parent board.
   */
  method SowCopy(p: Placement, parent: Board, i: int) returns (child: Board, last: int)
    requires WellFormed(parent) && 0 <= i < 14
    ensures Sown(child, last) == Sow(p, parent, i)
  {
    var a := new int[14](k requires 0 <= k < 14 => parent[k]);
    assert a[..] == parent;
    var j := i;
    var seeds := parent[i];
    a[i] := 0;
    assert a[..] == parent[i := 0];
    ghost var spec := Sow(p, parent, i);
    while seeds > 0
      invariant 0 <= j < 14 && seeds >= 0
      invariant SowFrom(p, a[..], j, seeds) == spec
      decreases seeds, Gap(p, j)
    {
      SowStep(p, a[..], j, seeds);
      ghost var before := a[..];
      j := (j + 1) % 14;
      if Placeable(p, j) {
        seeds := seeds - 1;
        a[j] := a[j] + 1;
        assert a[..] == before[j := before[j] + 1];
      }
    }
    child := a[..];
    last := j;
  }

  /**
   * One step of the sowing loop from slot j: the next slot takes a seed
   * if it may, and otherwise the loop goes on from it, closer to the
   * next placement.
   */
  lemma SowStep(p: Placement, b: Board, j: int, seeds: nat)
    requires |b| == 14 && 0 <= j < 14 && seeds > 0
    ensures var k := (j + 1) % 14;
      if Placeable(p, k) then SowFrom(p, b, j, seeds) == SowFrom(p, b[k := b[k] + 1], k, seeds - 1)
      else SowFrom(p, b, j, seeds) == SowFrom(p, b, k, seeds) && 0 <= Gap(p, k) < Gap(p, j)
  {
    NextStep(p, j);
    NextStep(p, (j + 1) % 14);
  }

  /** The mover's empty-house capture, done after the last seed lands in slot j. */
  predicate Captures(ply: Ply, b: Board, j: int)
    requires |b| == 14 && 0 <= j < 14
  {
    OwnHouse(ply, j) && b[j] == 1 && b[12 - j] > 0
  }

  function Capture(ply: Ply, b: Board, j: int): (r: Board)
    requires WellFormed(b) && 0 <= j < 14
    ensures |r| == 14
  {
    if Captures(ply, b, j) then
      var s := Store(ply);
      b[s := b[s] + b[12 - j] + 1][j := 0][12 - j := 0]
    else
      b
  }

  /** Emptying houses j and o into slot s keeps the total. */
  lemma MoveSeeds(b: Board, s: int, j: int, o: int)
    requires |b| == 14 && 0 <= s < 14 && 0 <= j < 14 && 0 <= o < 14
    requires s != j && s != o && j != o
    ensures Total(b[s := b[s] + b[o] + b[j]][j := 0][o := 0]) == Total(b)
  {
    var b1 := b[s := b[s] + b[o] + b[j]];
    var b2 := b1[j := 0];
    TotalUpdate(b, s, b[s] + b[o] + b[j]);
    TotalUpdate(b1, j, 0);
    TotalUpdate(b2, o, 0);
  }

  /** A capture only moves seeds: the board stays well-formed with the same total. */
  lemma CaptureConserves(ply: Ply, b: Board, j: int)
    requires WellFormed(b) && 0 <= j < 14
    ensures WellFormed(Capture(ply, b, j)) && Total(Capture(ply, b, j)) == Total(b)
  {
    if Captures(ply, b, j) {
      var s := Store(ply);
      assert s != j && s != 12 - j && j != 12 - j;
      MoveSeeds(b, s, j, 12 - j);
    }
  }

  /**
   * The empty-house rule: the mover's store gains the opposite house's
   * seeds plus the landing seed, both houses are emptied, and no other
   * slot changes; without a capture the board is unchanged.
   */
  lemma CaptureEffect(ply: Ply, b: Board, j: int, k: int)
    requires WellFormed(b) && 0 <= j < 14 && 0 <= k < 14
    ensures Captures(ply, b, j) ==>
      Capture(ply, b, j)[Store(ply)] == b[Store(ply)] + b[12 - j] + 1 &&
      Capture(ply, b, j)[j] == 0 && Capture(ply, b, j)[12 - j] == 0 &&
      (k != Store(ply) && k != j && k != 12 - j ==> Capture(ply, b, j)[k] == b[k])
    ensures !Captures(ply, b, j) ==> Capture(ply, b, j) == b
  {
  }

  /**
   * As written, MIN sowing in MTDFAgent and MMAgent drops seeds only into
   * houses 0..5: the last seed lands below 6, and slots 6..13 keep their
   * seeds except the emptied house i.
   */
  lemma LowHousesSowing(b: Board, i: int)
    requires WellFormed(b) && 7 <= i < 13 && b[i] > 0
    ensures 0 <= Sow(OnlyLowHouses, b, i).last < 6
    ensures Sow(OnlyLowHouses, b, i).board[i] == 0
    ensures forall k :: 6 <= k < 14 && k != i ==> Sow(OnlyLowHouses, b, i).board[k] == b[k]
  {
    SowSlot(OnlyLowHouses, b, i, i);
    SowConserves(OnlyLowHouses, b, i);
    forall k | 6 <= k < 14 && k != i
      ensures Sow(OnlyLowHouses, b, i).board[k] == b[k]
    {
      SowSlot(OnlyLowHouses, b, i, k);
    }
  }
}
