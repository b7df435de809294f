/** The facts about 64-bit XOR that the incremental update of a Zobrist key rests on. */
module XorAlgebra {
  /** XOR-ing the same term onto two strings keeps their difference. */
  lemma Shared(x: bv64, y: bv64, e: bv64)
    ensures (x ^ e) ^ (y ^ e) == x ^ y
  {
  }

  /** XOR-ing two terms onto the same string leaves the difference of the terms. */
  lemma SamePrefix(x: bv64, a: bv64, c: bv64)
    ensures (x ^ a) ^ (x ^ c) == a ^ c
  {
  }

  /** XOR-ing the difference onto one string gives the other. */
  lemma Difference(x: bv64, y: bv64)
    ensures y == x ^ (x ^ y)
  {
  }
}

module Zobrist {
  import opened Board
  import XorAlgebra

  /** A 14 x (N_SEEDS + 1) table of 64-bit strings. */
  predicate ValidTable(t: seq<seq<bv64>>) {
    |t| == 14 && forall i :: 0 <= i < 14 ==> |t[i]| == N_SEEDS + 1
  }

  /** Boards whose every slot indexes the table. */
  predicate Hashable(b: Board) {
    WellFormed(b) && forall k :: 0 <= k < 14 ==> b[k] <= N_SEEDS
  }

  lemma PlayableHashable(b: Board)
    requires Playable(b)
    ensures Hashable(b)
  {
    forall k | 0 <= k < 14
      ensures b[k] <= N_SEEDS
    {
      SlotAtMostTotal(b, k);
    }
  }

  /**
   * The table entry slot i selects, t[i][b[i]]; on a Hashable board and a
   * valid table every such read is in bounds, and the 0 of the other
   * branch is never used.
   */
  function SlotEntry(t: seq<seq<bv64>>, b: Board, i: int): bv64 {
    if 0 <= i < |t| && 0 <= i < |b| && 0 <= b[i] < |t[i]| then t[i][b[i]] else 0
  }

  /** The XOR of the entries selected by slots 0..n-1, folded from the left starting at 0 as the loop of `zobristHash` does. */
  function XorSlots(t: seq<seq<bv64>>, b: Board, n: nat): bv64 {
    if n == 0 then 0 else XorSlots(t, b, n - 1) ^ SlotEntry(t, b, n - 1)
  }

  function ZobristHash(t: seq<seq<bv64>>, b: Board): bv64 {
    XorSlots(t, b, 14)
  }

  /** Boards that select the same entries in their first n slots have the same prefix XOR. */
  lemma {:induction false} XorSlotsAgree(t: seq<seq<bv64>>, b: Board, c: Board, n: nat)
    requires forall j :: 0 <= j < n ==> SlotEntry(t, b, j) == SlotEntry(t, c, j)
    ensures XorSlots(t, b, n) == XorSlots(t, c, n)
  {
    if n > 0 {
      XorSlotsAgree(t, b, c, n - 1);
      var x, e := XorSlots(t, b, n - 1), SlotEntry(t, b, n - 1);
      assert XorSlots(t, c, n - 1) == x && SlotEntry(t, c, n - 1) == e;
    }
  }

  /**
   * The key is a function of the 14 selected entries alone: two boards
   * whose slots pick the same table entries share a key (in particular
   * equal boards, and boards met along different move orders).
   */
  lemma SameEntriesSameKey(t: seq<seq<bv64>>, b: Board, c: Board)
    requires ValidTable(t) && Hashable(b) && Hashable(c)
    requires forall k :: 0 <= k < 14 ==> t[k][b[k]] == t[k][c[k]]
    ensures ZobristHash(t, b) == ZobristHash(t, c)
  {
    XorSlotsAgree(t, b, c, 14);
  }

  /** One step of the fold of `zobristHash`. */
  lemma XorSlotsStep(t: seq<seq<bv64>>, b: Board, n: nat)
    requires n > 0
    ensures XorSlots(t, b, n) == XorSlots(t, b, n - 1) ^ SlotEntry(t, b, n - 1)
  {
  }

  /**
   * Boards that select the same entries in every slot from k + 1 up to
   * n - 1 and whose prefixes before k + 1 differ by d still differ by d
   * after n slots.
   */
  lemma {:induction false} XorSlotsDiffer(t: seq<seq<bv64>>, b: Board, c: Board, k: nat, n: nat, d: bv64)
    requires k < n
    requires XorSlots(t, b, k + 1) ^ XorSlots(t, c, k + 1) == d
    requires forall j :: k < j < n ==> SlotEntry(t, b, j) == SlotEntry(t, c, j)
    ensures XorSlots(t, b, n) ^ XorSlots(t, c, n) == d
    decreases n
  {
    if n > k + 1 {
      XorSlotsDiffer(t, b, c, k, n - 1, d);
      DifferStep(t, b, c, n, d);
    }
  }

  /** The step of XorSlotsDiffer: a slot selecting the same entry keeps the difference. */
  lemma DifferStep(t: seq<seq<bv64>>, b: Board, c: Board, n: nat, d: bv64)
    requires n > 0
    requires XorSlots(t, b, n - 1) ^ XorSlots(t, c, n - 1) == d
    requires SlotEntry(t, b, n - 1) == SlotEntry(t, c, n - 1)
    ensures XorSlots(t, b, n) ^ XorSlots(t, c, n) == d
  {
    XorSlotsStep(t, b, n);
    XorSlotsStep(t, c, n);
    XorAlgebra.Shared(XorSlots(t, b, n - 1), XorSlots(t, c, n - 1), SlotEntry(t, b, n - 1));
  }

  /** Boards that differ in slot k alone: after k + 1 slots the prefixes differ by the two entries slot k selects. */
  lemma PrefixDiffer(t: seq<seq<bv64>>, b: Board, c: Board, k: nat)
    requires forall j :: 0 <= j < k ==> SlotEntry(t, b, j) == SlotEntry(t, c, j)
    ensures XorSlots(t, b, k + 1) ^ XorSlots(t, c, k + 1) == SlotEntry(t, b, k) ^ SlotEntry(t, c, k)
  {
    XorSlotsAgree(t, b, c, k);
    XorSlotsStep(t, b, k + 1);
    XorSlotsStep(t, c, k + 1);
    XorAlgebra.SamePrefix(XorSlots(t, b, k), SlotEntry(t, b, k), SlotEntry(t, c, k));
  }

  /** Boards that differ in slot k alone: their keys differ by the two entries slot k selects. */
  lemma KeyDiffer(t: seq<seq<bv64>>, b: Board, c: Board, k: nat)
    requires k < 14
    requires forall j :: 0 <= j < 14 && j != k ==> SlotEntry(t, b, j) == SlotEntry(t, c, j)
    ensures ZobristHash(t, b) ^ ZobristHash(t, c) == SlotEntry(t, b, k) ^ SlotEntry(t, c, k)
  {
    PrefixDiffer(t, b, c, k);
    XorSlotsDiffer(t, b, c, k, 14, SlotEntry(t, b, k) ^ SlotEntry(t, c, k));
  }

  /** Boards that differ in slot k alone, on a valid table: their keys differ by the table entries t[k][b[k]] and t[k][c[k]]. */
  lemma OneSlotDiffer(t: seq<seq<bv64>>, b: Board, c: Board, k: int)
    requires ValidTable(t) && Hashable(b) && Hashable(c) && 0 <= k < 14
    requires forall j :: 0 <= j < 14 && j != k ==> b[j] == c[j]
    ensures ZobristHash(t, b) ^ ZobristHash(t, c) == t[k][b[k]] ^ t[k][c[k]]
  {
    SlotEntriesInBounds(t, b);
    SlotEntriesInBounds(t, c);
    KeyDiffer(t, b, c, k);
  }

  /**
   * Changing the seed count of one slot k changes the key by XOR-ing out
   * the entry the old count selected and XOR-ing in the new one, as an
   * incremental Zobrist update does.
   */
  lemma OneSlotKey(t: seq<seq<bv64>>, b: Board, c: Board, k: int)
    requires ValidTable(t) && Hashable(b) && Hashable(c) && 0 <= k < 14
    requires forall j :: 0 <= j < 14 && j != k ==> b[j] == c[j]
    ensures ZobristHash(t, c) == ZobristHash(t, b) ^ (t[k][b[k]] ^ t[k][c[k]])
  {
    OneSlotDiffer(t, b, c, k);
    XorAlgebra.Difference(ZobristHash(t, b), ZobristHash(t, c));
  }

  /** On a valid table and a Hashable board each selected entry is the table's own t[i][b[i]]. */
  lemma SlotEntriesInBounds(t: seq<seq<bv64>>, b: Board)
    requires ValidTable(t) && Hashable(b)
    ensures forall i :: 0 <= i < 14 ==> SlotEntry(t, b, i) == t[i][b[i]]
  {
  }
}
