/**
 * MTDFAgent's transposition table: a map from 64-bit Zobrist keys to entries
 * holding the depth searched and the bounds found, with the lookup that
 * opens `alphaBetaWithMemory` and the store that closes it.
 */
module TransTable {
  import opened Board

  /** Depth searched below a node and the bounds known for its value. */
  datatype TransEntry = TransEntry(depth: int, upperbound: int, lowerbound: int)

  /** A fresh entry (the TransEntry constructor): depth 0, bounds 200 and -200. */
  const DefaultEntry: TransEntry := TransEntry(0, 200, -200)

  /** The 64-bit Zobrist key of a board (the Long key of the HashMap). */
  datatype HashKey = HashKey(bits: bv64)

  type Table = map<HashKey, TransEntry>

  /** Every bound in the table is a Java int. */
  predicate TableInRange(tt: Table) {
    forall h :: h in tt ==> InRange(tt[h].upperbound) && InRange(tt[h].lowerbound)
  }

  /** `validEntry`: the node's move label is not negative and its key is in the table. */
  predicate ValidEntry(tt: Table, tag: int, h: HashKey) {
    tag >= 0 && h in tt
  }

  /** What the lookup decides: return a stored bound at once, or search the (narrowed) window. */
  datatype Probe = Cutoff(score: int) | Window(alpha: int, beta: int)

  /**
   * The lookup of `alphaBetaWithMemory`: an entry searched at least as
   * deep as `depth` either settles the node (a lower bound at or above
   * beta, an upper bound at or below alpha) or narrows the window.
   */
  function Lookup(tt: Table, tag: int, h: HashKey, depth: int, alpha: int, beta: int): Probe {
    if ValidEntry(tt, tag, h) && tt[h].depth >= depth then
      var e := tt[h];
      if e.lowerbound >= beta then Cutoff(e.lowerbound)
      else if e.upperbound <= alpha then Cutoff(e.upperbound)
      else Window(Max(alpha, e.lowerbound), Min(beta, e.upperbound))
    else
      Window(alpha, beta)
  }

  /**
   * The table is consulted only for a labelled node whose key is present
   * with an entry at least `depth` deep; then a cut-off returns a stored
   * bound beyond the window, the lower bound taking precedence when both
   * are, and otherwise the window only narrows, to the stored bounds.
   */
  lemma LookupSpec(tt: Table, tag: int, h: HashKey, depth: int, alpha: int, beta: int)
    ensures var r := Lookup(tt, tag, h, depth, alpha, beta);
      var used := tag >= 0 && h in tt && tt[h].depth >= depth;
      (!used ==> r == Window(alpha, beta)) &&
      (r.Cutoff? ==>
        used &&
        ((r.score == tt[h].lowerbound && r.score >= beta) || (r.score == tt[h].upperbound && r.score <= alpha))) &&
      (used && tt[h].lowerbound >= beta ==> r == Cutoff(tt[h].lowerbound)) &&
      (used && tt[h].lowerbound < beta && tt[h].upperbound <= alpha ==> r == Cutoff(tt[h].upperbound)) &&
      (r.Window? ==> alpha <= r.alpha && r.beta <= beta) &&
      (r.Window? && used ==>
        tt[h].lowerbound < beta && alpha < tt[h].upperbound &&
        r.alpha == Max(alpha, tt[h].lowerbound) && r.beta == Min(beta, tt[h].upperbound))
  {
  }

  /** With a table of Java ints, a lookup yields Java ints for Java-int windows. */
  lemma LookupInRange(tt: Table, tag: int, h: HashKey, depth: int, alpha: int, beta: int)
    requires TableInRange(tt)
    ensures var r := Lookup(tt, tag, h, depth, alpha, beta);
      r.Cutoff? ==> InRange(r.score)
  {
  }

  /** The entry a store starts from: the one under key h, or a fresh one. */
  function Found(tt: Table, h: HashKey): TransEntry {
    if h in tt then tt[h] else DefaultEntry
  }

  /**
   * The entry after a store: a fail-low value becomes the upper bound, a
   * fail-high value the lower bound, an exact value both; the entry then
   * records `depth`.
   */
  function Bounded(e: TransEntry, depth: int, alpha: int, beta: int, value: int): TransEntry {
    if value <= alpha then TransEntry(depth, value, e.lowerbound)
    else if value >= beta then TransEntry(depth, e.upperbound, value)
    else TransEntry(depth, value, value)
  }

  /**
   * The store at the end of `alphaBetaWithMemory`: the entry found (or a
   * fresh one) is updated unless the key holds a deeper entry.
   */
  function StoreEntry(tt: Table, h: HashKey, depth: int, alpha: int, beta: int, value: int): Table {
    var e := Found(tt, h);
    if e.depth <= depth then tt[h := Bounded(e, depth, alpha, beta, value)] else tt
  }

  /** A store touches at most the entry under key h, and a fresh key is stored at any depth >= 0. */
  lemma StoreKeepsOtherKeys(tt: Table, h: HashKey, depth: int, alpha: int, beta: int, value: int)
    ensures forall k :: k != h ==> (k in StoreEntry(tt, h, depth, alpha, beta, value) <==> k in tt)
    ensures forall k :: k != h && k in tt ==> StoreEntry(tt, h, depth, alpha, beta, value)[k] == tt[k]
    ensures h in StoreEntry(tt, h, depth, alpha, beta, value) <==> h in tt || depth >= 0
  {
  }

  /**
   * A store happens exactly when the stored depth is at most `depth`; it
   * then records `depth`, sets the bound the value proves and keeps the
   * other bound.
   */
  lemma StoreSpec(tt: Table, h: HashKey, depth: int, alpha: int, beta: int, value: int)
    ensures Found(tt, h).depth > depth ==> StoreEntry(tt, h, depth, alpha, beta, value) == tt
    ensures Found(tt, h).depth <= depth ==>
      var e, r := Found(tt, h), StoreEntry(tt, h, depth, alpha, beta, value);
      h in r && r[h].depth == depth &&
      (value <= alpha ==> r[h].upperbound == value && r[h].lowerbound == e.lowerbound) &&
      (alpha < value < beta ==> r[h].upperbound == value && r[h].lowerbound == value) &&
      (alpha < value && value >= beta ==> r[h].lowerbound == value && r[h].upperbound == e.upperbound)
  {
  }

  /** Storing a Java int keeps every bound of the table a Java int. */
  lemma StoreInRange(tt: Table, h: HashKey, depth: int, alpha: int, beta: int, value: int)
    requires TableInRange(tt) && InRange(value)
    ensures TableInRange(StoreEntry(tt, h, depth, alpha, beta, value))
  {
    var r := StoreEntry(tt, h, depth, alpha, beta, value);
    forall k | k in r
      ensures InRange(r[k].upperbound) && InRange(r[k].lowerbound)
    {
      if k != h {
        assert r[k] == tt[k];
      }
    }
  }
}
