/**
 * Child generation (`children` in all three engines): every non-empty
 * house of the mover is sown in ascending order; a last seed in the
 * mover's store grants an extra turn that is expanded for the same side,
 * and otherwise the empty-house capture is applied.
 */
module RuleEngine {
  import opened Board
  import opened Sowing

  /**
   * What distinguishes the engines' rule code: where MIN may sow, and
   * whether a terminal board ends an extra turn before it is expanded.
   */
  datatype Rules = Rules(minPlacement: Placement, terminalEndsExtraTurn: bool)

  /** MTDFAgent and MMAgent: MIN sows into houses 0..5 only; terminal boards are emitted. */
  const MTDFRules: Rules := Rules(OnlyLowHouses, true)

  /** MancalaImp: MIN skips store 6; extra turns are expanded without a terminal check. */
  const ImpRules: Rules := Rules(SkipSlot6, false)

  function PlacementFor(rules: Rules, ply: Ply): Placement {
    if ply == MaxStep then SkipSlot13 else rules.minPlacement
  }

  /** Seeds outside the mover's store; an extra turn strictly lowers it. */
  function Unstored(b: Board, ply: Ply): int
    requires |b| == 14
  {
    Total(b) - b[Store(ply)]
  }

  /**
   * Children from the mover's houses i.. onward (the loop of `children`
   * from house i), each labelled by the first house of its move.
   */
  function ChildrenFrom(rules: Rules, parent: ChildMove, ply: Ply, extraTurn: bool, i: int): (r: seq<ChildMove>)
    requires WellFormed(parent.state) && HouseBase(ply) <= i <= HouseBase(ply) + 6
    ensures forall c :: c in r ==> WellFormed(c.state) && Total(c.state) == Total(parent.state)
    decreases Unstored(parent.state, ply), HouseBase(ply) + 7 - i
  {
    if i == HouseBase(ply) + 6 then []
    else if parent.state[i] == 0 then ChildrenFrom(rules, parent, ply, extraTurn, i + 1)
    else ExpandHouse(rules, parent, ply, extraTurn, i) + ChildrenFrom(rules, parent, ply, extraTurn, i + 1)
  }

  /** The children produced by playing the non-empty house i. */
  function ExpandHouse(rules: Rules, parent: ChildMove, ply: Ply, extraTurn: bool, i: int): (r: seq<ChildMove>)
    requires WellFormed(parent.state) && OwnHouse(ply, i) && parent.state[i] > 0
    ensures forall c :: c in r ==> WellFormed(c.state) && Total(c.state) == Total(parent.state)
    decreases Unstored(parent.state, ply), 0
  {
    var first := if extraTurn then parent.move else i;
    var s := Sow(PlacementFor(rules, ply), parent.state, i);
    SowConserves(PlacementFor(rules, ply), parent.state, i);
    if s.last == Store(ply) then
      if rules.terminalEndsExtraTurn && Terminal(s.board) then
        [ChildMove(first, s.board)]
      else
        SowSlot(PlacementFor(rules, ply), parent.state, i, Store(ply));
        SlotAtMostTotal(parent.state, Store(ply));
        ChildrenFrom(rules, ChildMove(first, s.board), ply, true, HouseBase(ply))
    else
      CaptureConserves(ply, s.board, s.last);
      [ChildMove(first, Capture(ply, s.board, s.last))]
  }

  /** All children of a node. */
  function ChildrenOf(rules: Rules, parent: ChildMove, ply: Ply, extraTurn: bool): seq<ChildMove>
    requires WellFormed(parent.state)
  {
    ChildrenFrom(rules, parent, ply, extraTurn, HouseBase(ply))
  }

  predicate AllPlayable(kids: seq<ChildMove>) {
    forall c :: c in kids ==> Playable(c.state)
  }

  /** Children of a playable board are playable: sowing and capture conserve the seeds. */
  lemma KidsPlayable(rules: Rules, node: ChildMove, ply: Ply)
    requires Playable(node.state)
    ensures AllPlayable(ChildrenOf(rules, node, ply, false))
  {
  }

  /**
   * `children`: for each non-empty house in ascending order, sow a copy of
   * the parent board and apply the extra-turn or capture rule.
   */
  method Children(rules: Rules, parent: ChildMove, ply: Ply, extraTurn: bool) returns (cs: seq<ChildMove>)
    requires WellFormed(parent.state)
    ensures cs == ChildrenOf(rules, parent, ply, extraTurn)
    decreases Unstored(parent.state, ply), 1
  {
    cs := [];
    var i := HouseBase(ply);
    ghost var all := ChildrenOf(rules, parent, ply, extraTurn);
    while i < HouseBase(ply) + 6
      invariant HouseBase(ply) <= i <= HouseBase(ply) + 6
      invariant all == cs + ChildrenFrom(rules, parent, ply, extraTurn, i)
    {
      ChildrenFromStep(rules, parent, ply, extraTurn, i);
      if parent.state[i] > 0 {
        var these := PlayHouse(rules, parent, ply, extraTurn, i);
        ghost var rest := ChildrenFrom(rules, parent, ply, extraTurn, i + 1);
        assert cs + (these + rest) == (cs + these) + rest;
        cs := cs + these;
      }
      i := i + 1;
    }
  }

  /** One house of the loop of `children`: house i contributes its children, if it is non-empty, before those of houses i + 1... */
  lemma ChildrenFromStep(rules: Rules, parent: ChildMove, ply: Ply, extraTurn: bool, i: int)
    requires WellFormed(parent.state) && HouseBase(ply) <= i < HouseBase(ply) + 6
    ensures parent.state[i] == 0 ==>
      ChildrenFrom(rules, parent, ply, extraTurn, i) == ChildrenFrom(rules, parent, ply, extraTurn, i + 1)
    ensures parent.state[i] > 0 ==>
      ChildrenFrom(rules, parent, ply, extraTurn, i) ==
      ExpandHouse(rules, parent, ply, extraTurn, i) + ChildrenFrom(rules, parent, ply, extraTurn, i + 1)
  {
  }

  /** The body of the loop of `children` for one non-empty house. */
  method PlayHouse(rules: Rules, parent: ChildMove, ply: Ply, extraTurn: bool, i: int) returns (these: seq<ChildMove>)
    requires WellFormed(parent.state) && OwnHouse(ply, i) && parent.state[i] > 0
    ensures these == ExpandHouse(rules, parent, ply, extraTurn, i)
    decreases Unstored(parent.state, ply), 0
  {
    var first := if extraTurn then parent.move else i;
    var p := PlacementFor(rules, ply);
    var board, last := SowCopy(p, parent.state, i);
    SowConserves(p, parent.state, i);
    if last == Store(ply) {
      if rules.terminalEndsExtraTurn && Terminal(board) {
        these := [ChildMove(first, board)];
      } else {
        SowSlot(p, parent.state, i, Store(ply));
        SlotAtMostTotal(parent.state, Store(ply));
        these := Children(rules, ChildMove(first, board), ply, true);
      }
    } else {
      these := [ChildMove(first, Capture(ply, board, last))];
    }
  }

  /** An extra turn moves the last seed into the mover's store, so fewer seeds remain outside it. */
  lemma ExtraTurnShrinks(rules: Rules, b: Board, ply: Ply, i: int)
    requires WellFormed(b) && OwnHouse(ply, i) && b[i] > 0
    requires Sow(PlacementFor(rules, ply), b, i).last == Store(ply)
    ensures 0 <= Unstored(Sow(PlacementFor(rules, ply), b, i).board, ply) < Unstored(b, ply)
  {
    var p := PlacementFor(rules, ply);
    SowConserves(p, b, i);
    SowSlot(p, b, i, Store(ply));
    SlotAtMostTotal(Sow(p, b, i).board, Store(ply));
  }

  /**
   * Child labels: on an extra turn every child keeps the parent's label;
   * otherwise each child is labelled by a non-empty house of the mover at
   * or after house i.
   */
  lemma {:induction false} ChildrenFromLabels(rules: Rules, parent: ChildMove, ply: Ply, extraTurn: bool, i: int)
    requires WellFormed(parent.state) && HouseBase(ply) <= i <= HouseBase(ply) + 6
    ensures forall c :: c in ChildrenFrom(rules, parent, ply, extraTurn, i) ==>
      if extraTurn then c.move == parent.move
      else i <= c.move && OwnHouse(ply, c.move) && parent.state[c.move] > 0
    decreases Unstored(parent.state, ply), HouseBase(ply) + 7 - i
  {
    if i < HouseBase(ply) + 6 {
      ChildrenFromLabels(rules, parent, ply, extraTurn, i + 1);
      if parent.state[i] > 0 {
        ExpandHouseLabels(rules, parent, ply, extraTurn, i);
      }
    }
  }

  lemma {:induction false} ExpandHouseLabels(rules: Rules, parent: ChildMove, ply: Ply, extraTurn: bool, i: int)
    requires WellFormed(parent.state) && OwnHouse(ply, i) && parent.state[i] > 0
    ensures forall c :: c in ExpandHouse(rules, parent, ply, extraTurn, i) ==>
      c.move == if extraTurn then parent.move else i
    decreases Unstored(parent.state, ply), 0
  {
    var p := PlacementFor(rules, ply);
    var s := Sow(p, parent.state, i);
    SowConserves(p, parent.state, i);
    if s.last == Store(ply) && !(rules.terminalEndsExtraTurn && Terminal(s.board)) {
      var first := if extraTurn then parent.move else i;
      ExtraTurnShrinks(rules, parent.state, ply, i);
      ChildrenFromLabels(rules, ChildMove(first, s.board), ply, true, HouseBase(ply));
    }
  }

  predicate LabelsAscending(r: seq<ChildMove>) {
    forall x, y :: 0 <= x < y < |r| ==> r[x].move <= r[y].move
  }

  /** Top-level children are labelled by non-empty houses of the mover, in ascending order. */
  lemma {:induction false} ChildrenFromSorted(rules: Rules, parent: ChildMove, ply: Ply, i: int)
    requires WellFormed(parent.state) && HouseBase(ply) <= i <= HouseBase(ply) + 6
    ensures LabelsAscending(ChildrenFrom(rules, parent, ply, false, i))
    decreases HouseBase(ply) + 6 - i
  {
    if i < HouseBase(ply) + 6 {
      ChildrenFromSorted(rules, parent, ply, i + 1);
      ChildrenFromLabels(rules, parent, ply, false, i + 1);
      if parent.state[i] > 0 {
        ExpandHouseLabels(rules, parent, ply, false, i);
        var e := ExpandHouse(rules, parent, ply, false, i);
        var rest := ChildrenFrom(rules, parent, ply, false, i + 1);
        AscendingPrepend(e, rest, i);
      }
    }
  }

  /** Children labelled i followed by an ascending run labelled at least i are ascending. */
  lemma AscendingPrepend(e: seq<ChildMove>, rest: seq<ChildMove>, i: int)
    requires forall c :: c in e ==> c.move == i
    requires forall c :: c in rest ==> i <= c.move
    requires LabelsAscending(rest)
    ensures LabelsAscending(e + rest)
  {
    var r := e + rest;
    forall x, y | 0 <= x < y < |r|
      ensures r[x].move <= r[y].move
    {
      if y < |e| {
        assert r[x] == e[x] && r[y] == e[y];
        assert e[x] in e && e[y] in e;
      } else if x < |e| {
        assert r[x] == e[x] && r[y] == rest[y - |e|];
        assert e[x] in e && rest[y - |e|] in rest;
      } else {
        assert r[x] == rest[x - |e|] && r[y] == rest[y - |e|];
      }
    }
  }

  /** The labels of the children of a node at the top of a turn. */
  lemma ChildrenLabels(rules: Rules, parent: ChildMove, ply: Ply)
    requires WellFormed(parent.state)
    ensures var r := ChildrenOf(rules, parent, ply, false);
      (forall c :: c in r ==> OwnHouse(ply, c.move) && parent.state[c.move] > 0) &&
      LabelsAscending(r)
  {
    ChildrenFromLabels(rules, parent, ply, false, HouseBase(ply));
    ChildrenFromSorted(rules, parent, ply, HouseBase(ply));
  }

  /** Some house at or after i is non-empty. */
  predicate MoveFrom(b: Board, ply: Ply, i: int)
    requires |b| == 14
  {
    exists j :: i <= j < HouseBase(ply) + 6 && OwnHouse(ply, j) && b[j] > 0
  }

  /**
   * When a terminal board ends an extra turn (MTDFAgent and MMAgent), the
   * houses from i onward yield no child exactly when they are all empty.
   */
  lemma {:induction false} ChildrenFromNonEmpty(rules: Rules, parent: ChildMove, ply: Ply, extraTurn: bool, i: int)
    requires WellFormed(parent.state) && HouseBase(ply) <= i <= HouseBase(ply) + 6
    requires rules.terminalEndsExtraTurn
    ensures ChildrenFrom(rules, parent, ply, extraTurn, i) != [] <==> MoveFrom(parent.state, ply, i)
    decreases Unstored(parent.state, ply), HouseBase(ply) + 7 - i
  {
    if i < HouseBase(ply) + 6 {
      ChildrenFromNonEmpty(rules, parent, ply, extraTurn, i + 1);
      if parent.state[i] > 0 {
        ExpandHouseNonEmpty(rules, parent, ply, extraTurn, i);
      } else if MoveFrom(parent.state, ply, i) {
        var j :| i <= j < HouseBase(ply) + 6 && OwnHouse(ply, j) && parent.state[j] > 0;
        assert MoveFrom(parent.state, ply, i + 1) by { assert j != i; }
      }
    }
  }

  lemma {:induction false} ExpandHouseNonEmpty(rules: Rules, parent: ChildMove, ply: Ply, extraTurn: bool, i: int)
    requires WellFormed(parent.state) && OwnHouse(ply, i) && parent.state[i] > 0
    requires rules.terminalEndsExtraTurn
    ensures ExpandHouse(rules, parent, ply, extraTurn, i) != []
    decreases Unstored(parent.state, ply), 0
  {
    var p := PlacementFor(rules, ply);
    var s := Sow(p, parent.state, i);
    SowConserves(p, parent.state, i);
    if s.last == Store(ply) && !Terminal(s.board) {
      var first := if extraTurn then parent.move else i;
      ExtraTurnShrinks(rules, parent.state, ply, i);
      var j := NonTerminalHasMove(s.board, ply);
      ChildrenFromNonEmpty(rules, ChildMove(first, s.board), ply, true, HouseBase(ply));
    }
  }

  /** MTDFAgent and MMAgent: a non-terminal board always has a child. */
  lemma NonTerminalHasChild(parent: ChildMove, ply: Ply, extraTurn: bool)
    requires WellFormed(parent.state) && !Terminal(parent.state)
    ensures ChildrenOf(MTDFRules, parent, ply, extraTurn) != []
  {
    var j := NonTerminalHasMove(parent.state, ply);
    ChildrenFromNonEmpty(MTDFRules, parent, ply, extraTurn, HouseBase(ply));
  }

  /** The opponent's store never changes during the mover's turn. */
  lemma {:induction false} ChildrenFromKeepOpponentStore(rules: Rules, parent: ChildMove, ply: Ply, extraTurn: bool, i: int)
    requires WellFormed(parent.state) && HouseBase(ply) <= i <= HouseBase(ply) + 6
    requires rules == MTDFRules || rules == ImpRules
    ensures forall c :: c in ChildrenFrom(rules, parent, ply, extraTurn, i) ==>
      c.state[Store(ply.Other())] == parent.state[Store(ply.Other())]
    decreases Unstored(parent.state, ply), HouseBase(ply) + 7 - i
  {
    if i < HouseBase(ply) + 6 {
      ChildrenFromKeepOpponentStore(rules, parent, ply, extraTurn, i + 1);
      if parent.state[i] > 0 {
        ExpandHouseKeepsOpponentStore(rules, parent, ply, extraTurn, i);
      }
    }
  }

  lemma {:induction false} ExpandHouseKeepsOpponentStore(rules: Rules, parent: ChildMove, ply: Ply, extraTurn: bool, i: int)
    requires WellFormed(parent.state) && OwnHouse(ply, i) && parent.state[i] > 0
    requires rules == MTDFRules || rules == ImpRules
    ensures forall c :: c in ExpandHouse(rules, parent, ply, extraTurn, i) ==>
      c.state[Store(ply.Other())] == parent.state[Store(ply.Other())]
    decreases Unstored(parent.state, ply), 0
  {
    var p := PlacementFor(rules, ply);
    var s := Sow(p, parent.state, i);
    var o := Store(ply.Other());
    SowConserves(p, parent.state, i);
    SowSlot(p, parent.state, i, o);
    assert s.board[o] == parent.state[o];
    var first := if extraTurn then parent.move else i;
    if s.last == Store(ply) {
      if !(rules.terminalEndsExtraTurn && Terminal(s.board)) {
        ExtraTurnShrinks(rules, parent.state, ply, i);
        ChildrenFromKeepOpponentStore(rules, ChildMove(first, s.board), ply, true, HouseBase(ply));
      }
    } else {
      CaptureEffect(ply, s.board, s.last, o);
    }
  }

  /**
   * As written in MTDFAgent and MMAgent, a MIN move only carries seeds
   * from the chosen house into houses 0..5: its last seed never reaches
   * store 13 and never lands in a MIN house, so neither the extra turn nor
   * the capture happens.
   */
  lemma MinMoveAsWritten(parent: ChildMove, extraTurn: bool, i: int)
    requires WellFormed(parent.state) && OwnHouse(MinStep, i) && parent.state[i] > 0
    ensures var r := ExpandHouse(MTDFRules, parent, MinStep, extraTurn, i);
      |r| == 1 && r[0].state == Sow(OnlyLowHouses, parent.state, i).board &&
      r[0].state[i] == 0 &&
      (forall k :: 6 <= k < 14 && k != i ==> r[0].state[k] == parent.state[k])
  {
    LowHousesSowing(parent.state, i);
  }

  /** When the mover's houses i.. are all empty, the loop of `children` from house i yields no child. */
  lemma {:induction false} ChildrenFromNone(rules: Rules, parent: ChildMove, ply: Ply, extraTurn: bool, i: int)
    requires WellFormed(parent.state) && HouseBase(ply) <= i <= HouseBase(ply) + 6
    requires !MoveFrom(parent.state, ply, i)
    ensures ChildrenFrom(rules, parent, ply, extraTurn, i) == []
    decreases HouseBase(ply) + 6 - i
  {
    if i < HouseBase(ply) + 6 {
      assert parent.state[i] == 0 by {
        assert !(i <= i < HouseBase(ply) + 6 && OwnHouse(ply, i) && parent.state[i] > 0);
      }
      ChildrenFromNone(rules, parent, ply, extraTurn, i + 1);
    }
  }

  /**
   * MancalaImp, either side: a move whose last seed reaches the mover's
   * store and leaves the mover's houses empty is expanded all the same, and
   * yields no child at all.
   */
  lemma ImpExtraTurnDeadEnd(parent: ChildMove, ply: Ply, extraTurn: bool, i: int)
    requires WellFormed(parent.state) && OwnHouse(ply, i) && parent.state[i] > 0
    requires Sow(PlacementFor(ImpRules, ply), parent.state, i).last == Store(ply)
    requires !MoveFrom(Sow(PlacementFor(ImpRules, ply), parent.state, i).board, ply, HouseBase(ply))
    ensures ExpandHouse(ImpRules, parent, ply, extraTurn, i) == []
  {
    var s := Sow(PlacementFor(ImpRules, ply), parent.state, i);
    SowConserves(PlacementFor(ImpRules, ply), parent.state, i);
    var first := if extraTurn then parent.move else i;
    ChildrenFromNone(ImpRules, ChildMove(first, s.board), ply, true, HouseBase(ply));
  }

  /**
   * MTDFAgent and MMAgent, either side: the same move ends the game, and
   * its board is emitted as the one child, under the label of the move.
   */
  lemma TerminalExtraTurnChild(parent: ChildMove, ply: Ply, extraTurn: bool, i: int)
    requires WellFormed(parent.state) && OwnHouse(ply, i) && parent.state[i] > 0
    requires Sow(PlacementFor(MTDFRules, ply), parent.state, i).last == Store(ply)
    requires !MoveFrom(Sow(PlacementFor(MTDFRules, ply), parent.state, i).board, ply, HouseBase(ply))
    ensures var s := Sow(PlacementFor(MTDFRules, ply), parent.state, i);
      Terminal(s.board) &&
      ExpandHouse(MTDFRules, parent, ply, extraTurn, i) == [ChildMove(if extraTurn then parent.move else i, s.board)]
  {
    var s := Sow(PlacementFor(MTDFRules, ply), parent.state, i);
    SowConserves(PlacementFor(MTDFRules, ply), parent.state, i);
    TerminalIff(s.board);
    assert forall k :: HouseBase(ply) <= k < HouseBase(ply) + 6 ==> s.board[k] == 0;
  }

  /**
   * MancalaImp expands an extra turn without a terminal check: here MAX's
   * only move drops its single seed into store 6 and leaves houses 0..5
   * empty, so the non-terminal board has no child at all.
   */
  lemma ImpDeadEnd()
    ensures var b := [0, 0, 0, 0, 0, 1, 0, 1, 1, 1, 1, 1, 1, 0];
      WellFormed(b) && !Terminal(b) &&
      ChildrenOf(ImpRules, ChildMove(-1, b), MaxStep, false) == []
  {
    var b := [0, 0, 0, 0, 0, 1, 0, 1, 1, 1, 1, 1, 1, 0];
    var after := [0, 0, 0, 0, 0, 0, 1, 1, 1, 1, 1, 1, 1, 0];
    HouseSums(b);
    assert Sow(SkipSlot13, b, 5) == Sown(after, 6) by {
      assert b[5 := 0][6 := 1] == after;
    }
    assert ChildrenFrom(ImpRules, ChildMove(5, after), MaxStep, true, 0) == [];
  }

  /** On the same board the MTDFAgent and MMAgent rules emit the terminal board reached. */
  lemma TerminalExtraTurnEmitted()
    ensures var b := [0, 0, 0, 0, 0, 1, 0, 1, 1, 1, 1, 1, 1, 0];
      WellFormed(b) &&
      ChildrenOf(MTDFRules, ChildMove(-1, b), MaxStep, false) ==
        [ChildMove(5, [0, 0, 0, 0, 0, 0, 1, 1, 1, 1, 1, 1, 1, 0])]
  {
    var b := [0, 0, 0, 0, 0, 1, 0, 1, 1, 1, 1, 1, 1, 0];
    var after := [0, 0, 0, 0, 0, 0, 1, 1, 1, 1, 1, 1, 1, 0];
    HouseSums(after);
    assert Sow(SkipSlot13, b, 5) == Sown(after, 6) by {
      assert b[5 := 0][6 := 1] == after;
    }
  }
}
