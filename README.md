# Kalah search engines in Dafny

This project models the search core of three Java agents for Kalah, the
Mancala variant where a last seed in one's own store grants an extra turn,
and a last seed alone in an empty own house captures the opposite house.
A board has 14 slots: houses 0..5 and store 6 belong to the agent (MAX),
houses 7..12 and store 13 to the opponent (MIN).

- `MTDFAgent.java` combines three parts:
  - a rule engine (`terminal`, `children`);
  - a heuristic `evaluate`;
  - a memoised fail-soft `alphaBetaWithMemory`, which uses a Zobrist hash and a transposition table, driven by MTD(f) zero-window probes and iterative deepening in `move`.
- `MMAgent.java` has the same rule engine, a material evaluator and plain `minimax` to depth 7.
- `MancalaImp.java` has its own rule engine and a material `utility`. Its `alphabeta` skips the cut-off while a bound is still the sentinel. Its root scorers `move` and `extraTurnValue` let MAX move again after its own move.

Modules, in dependency order:

- `Board`: boards, the shared `Ply`, `ChildMove` and `MoveScore` types, `terminal`, and the Java int range.
- `Evaluation`: both evaluators.
- `XorAlgebra`, `Zobrist` and `TransTable`: three facts about 64-bit XOR, the hash key and its one-slot update, and the lookup and store of `alphaBetaWithMemory`.
- `Sowing` and `RuleEngine`: sowing with the three skip rules, capture, and `children`. `children` is modelled once, parameterised by the MIN side's skip rule and by whether a terminal board ends an extra turn.
- `MinimaxSearch` and `MinimaxAgent`: `minimax` and its `move`.
- `MTDFSearch` and `Agent`: the MTD(f) search as state-passing functions, and the `MTDFAgent` class.
  - The class holds the Zobrist table and the transposition table as fields.
  - Its methods update the transposition table in place.
  - Each method is proved equal to its function.
- `ImpSearch`, `ImpRoot` and `ImpAgent`: MancalaImp's `alphabeta`, an independent minimax reference it is proved sound against, and the root scorers.

Sowing (`Sowing.SowCopy`) and child generation (`RuleEngine.Children`) are imperative methods. They work on a fresh copy of the board, as the Java code does with `Arrays.copyOf` and `new ArrayList<>(state)`. Each is proved equal to a recursive specification.

Where the comments in the source and its code disagree, the model follows the code:

- In `MTDFAgent.java` and `MMAgent.java`, MIN's sowing loop carries the comment `//don't place in our store`, which suggests that only store 6 is skipped. Its test `j < 6`, however, places seeds only in houses 0..5 (`MTDFAgent.java:371`, `MMAgent.java:154`). As a result, MIN's extra-turn and capture branches never fire (`RuleEngine.MinMoveAsWritten`).
- `MTDFAgent.java:340`, `:377` and `MMAgent.java:123`, `:161` test `terminal` before expanding an extra turn, with the comment that a move ending the game cannot give one (`RuleEngine.TerminalExtraTurnEmitted`, `RuleEngine.TerminalExtraTurnChild`). `MancalaImp.java:204-206` and `:234-236` expand the extra turn without that test. So a move there that empties the mover's houses yields no child at all (`RuleEngine.ImpExtraTurnDeadEnd`), and a board still in play can have no children (`RuleEngine.ImpDeadEnd`).
- `MancalaImp.move` and `extraTurnValue` search the board after MAX's own move with MAX to move again (`MancalaImp.java:110,155`).

## Model

| member | source | states |
|---|---|---|
| Board.TerminalIff | MTDFAgent.java:112-125 | a board is terminal exactly when houses 0..5 are all empty or houses 7..12 are all empty (the same test as MMAgent.java:34-47 and MancalaImp.java:276-291) |
| Board.NonTerminalHasMove | MTDFAgent.java:112-125 | on a board that is not terminal, each side has a non-empty house of its own |
| Evaluation.EvaluateTerminal | MTDFAgent.java:133-146 | on a terminal board `evaluate` is 100, -100 or 0 exactly when sum(0..6) - sum(7..13) is positive, negative or zero |
| Evaluation.EvaluateInPlay | MTDFAgent.java:133-170 | on a board in play with at most 36 seeds, `evaluate` lies strictly between -100 and 100 (and within ±72) |
| Evaluation.EvaluateBounded | MTDFAgent.java:133-170 | on any board with at most 36 seeds, `evaluate` lies in -100..100 |
| Evaluation.HouseValuesBounds | MTDFAgent.java:150-168 | the per-house heuristic terms sum to between 0 and the seeds of those houses plus the houses facing them |
| Evaluation.MaterialBounded | MMAgent.java:49-63 | the material difference sum(0..6) - sum(7..13) lies within ±36 |
| Evaluation.MaterialScoreSentinels | MMAgent.java:49-63 | `evaluate`/`utility` is Integer.MAX_VALUE exactly on a terminal win and Integer.MIN_VALUE exactly on a terminal loss; any other value is the material difference |
| Evaluation.EvaluatorsAgreeAtEnd | MancalaImp.java:256-269 | on a terminal board, `utility` and MTDFAgent's `evaluate` have the same sign |
| Zobrist.PlayableHashable | MTDFAgent.java:69-81 | a board with at most 36 seeds indexes the 14 x 37 table in every slot |
| Zobrist.SlotEntriesInBounds | MTDFAgent.java:98-104 | on such a board every slot's term is the table entry `table[i][state[i]]` |
| Zobrist.XorSlotsAgree | MTDFAgent.java:98-104 | boards selecting the same entries in their first n slots have the same partial XOR |
| Zobrist.SameEntriesSameKey | MTDFAgent.java:98-104 | boards selecting the same table entries in all 14 slots (in particular equal boards) have the same key |
| Zobrist.XorSlotsDiffer | MTDFAgent.java:100-102 | once the prefix XORs of two boards differ by d after slot k, they still differ by d after any later run of slots that select the same entries |
| Zobrist.KeyDiffer | MTDFAgent.java:98-104 | two boards selecting the same entries in every slot but k have keys that differ by exactly the XOR of the two entries slot k selects |
| Zobrist.OneSlotKey | MTDFAgent.java:98-104 | changing one slot's seed count changes the key by XOR-ing out the old count's table entry and XOR-ing in the new one's |
| TransTable.LookupSpec | MTDFAgent.java:240-252 | the table is used only for a label >= 0 whose key holds an entry at least `depth` deep. A cut-off then returns the stored lower bound whenever it is >= beta (even when the upper bound is also <= alpha), and otherwise the stored upper bound when it is <= alpha. Otherwise the window narrows to (max(alpha, lower), min(beta, upper)) |
| TransTable.LookupInRange | MTDFAgent.java:240-252 | a cut-off from a table of Java-int bounds returns a Java int |
| TransTable.StoreSpec | MTDFAgent.java:282-300 | a store leaves the table alone when the entry found is deeper than `depth`. Otherwise it records `depth` and sets the upper bound on a fail-low, the lower bound on a fail-high, and both on an exact value, keeping the other bound |
| TransTable.StoreKeepsOtherKeys | MTDFAgent.java:282-300 | a store changes no key but its own, and a missing key is added |
| TransTable.StoreInRange | MTDFAgent.java:282-300 | storing a Java-int value keeps every bound of the table a Java int |
| Sowing.SowFromCount | MTDFAgent.java:331-338 | the sowing loop adds exactly its seeds to the board, and its last slot is one that may receive seeds |
| Sowing.SowFromSlot | MTDFAgent.java:331-338 | the sowing loop never lowers a slot, never touches a skipped slot, and raises the slot of its last seed |
| Sowing.SowConserves | MTDFAgent.java:328-338 | sowing a house keeps the board well formed with the same seed total |
| Sowing.SowSlot | MancalaImp.java:193-203 | after sowing house i, every other slot holds at least as much as before, a skipped slot is unchanged (MAX never sows into 13, MancalaImp's MIN never into 6), and the last slot holds a seed |
| Sowing.SowCopy | MTDFAgent.java:328-338 | the in-place sowing loop over a copy of the parent returns the board and last slot of `Sow` |
| Sowing.CaptureConserves | MTDFAgent.java:346-350 | the empty-house rule keeps the board well formed with the same seed total |
| Sowing.CaptureEffect | MTDFAgent.java:346-350 | when the last seed lies alone in an own house j and 12-j is non-empty, the mover's store gains state[12-j] + 1 and both houses become 0, and nothing else changes. Otherwise the board is unchanged (both sides, as in MancalaImp.java:208-212 and 238-242) |
| Sowing.LowHousesSowing | MTDFAgent.java:365-375 | MIN's sowing as written in MTDFAgent and MMAgent empties the house, ends in 0..5 and leaves slots 6..13 otherwise unchanged |
| RuleEngine.ChildrenFrom | MTDFAgent.java:314-394 | every child of the house loop has a well-formed board with the parent's seed total |
| RuleEngine.ExpandHouse | MTDFAgent.java:320-352 | every child of one house, through any chain of extra turns, has a well-formed board with the parent's seed total |
| RuleEngine.KidsPlayable | MTDFAgent.java:314-394 | children of a board with at most 36 seeds have at most 36 seeds |
| RuleEngine.Children | MTDFAgent.java:314-394 | `children`, as a loop over the mover's houses that appends each house's children, equals the recursive specification (the same code as MMAgent.java:97-178 and MancalaImp.java:184-249, each with its own skip rule) |
| RuleEngine.PlayHouse | MTDFAgent.java:320-352 | one house's sowing, extra turn and capture equal its specification |
| RuleEngine.ExtraTurnShrinks | MTDFAgent.java:339-344 | a move ending in the mover's store strictly lowers the seeds outside that store, so the extra-turn recursion terminates |
| RuleEngine.ChildrenFromLabels | MTDFAgent.java:319-326 | top-level children are labelled by a non-empty own house at or after the loop index; extra-turn children keep the parent's label |
| RuleEngine.ExpandHouseLabels | MTDFAgent.java:322-343 | the children of house i all carry label i, or the parent's label on an extra turn |
| RuleEngine.ChildrenFromSorted | MTDFAgent.java:319-326 | top-level children come in ascending label order |
| RuleEngine.ChildrenLabels | MTDFAgent.java:319-326 | the children of `children(parent, step, false)` are labelled by non-empty houses of the mover, in ascending order |
| RuleEngine.ChildrenFromNonEmpty | MTDFAgent.java:319-344 | where a terminal board ends an extra turn, the house loop yields some child iff some remaining own house is non-empty |
| RuleEngine.ExpandHouseNonEmpty | MTDFAgent.java:339-344 | where a terminal board ends an extra turn, every non-empty own house yields at least one child |
| RuleEngine.NonTerminalHasChild | MTDFAgent.java:314-394 | a board in play has at least one child for either side |
| RuleEngine.ChildrenFromKeepOpponentStore | MancalaImp.java:184-249 | no child changes the opponent's store, for either rule set |
| RuleEngine.ExpandHouseKeepsOpponentStore | MancalaImp.java:196-203 | no extra-turn chain from one house changes the opponent's store |
| RuleEngine.MinMoveAsWritten | MTDFAgent.java:365-389 | as written, a MIN move yields exactly one child: the sown board, with house i empty and slots 6..13 otherwise unchanged; no extra turn or capture follows |
| RuleEngine.ChildrenFromNone | MancalaImp.java:188-189 | when the mover's houses from i on are all empty, the house loop of `children` from i yields nothing |
| RuleEngine.ImpExtraTurnDeadEnd | MancalaImp.java:204-206 | for either side, a move whose last seed reaches the mover's store and leaves the mover's houses empty is expanded anyway and yields no child |
| RuleEngine.TerminalExtraTurnChild | MTDFAgent.java:339-341 | in MTDFAgent and MMAgent, the same move ends the game, and its board is emitted as the single child under the move's label |
| RuleEngine.ImpDeadEnd | MancalaImp.java:204-206 | a witness that such a board occurs in play: a board that is not terminal, whose only move is such an extra turn, has no child |
| RuleEngine.TerminalExtraTurnEmitted | MTDFAgent.java:339-341 | the same move in MTDFAgent emits the terminal board as a child, with the house's label |
| MinimaxSearch.MaxFoldSpec | MMAgent.java:74-83 | the MAX loop's value is at least the start value and every child's score. With no child reaching the start value, the start move and value are kept; otherwise the last child attaining the value supplies the move |
| MinimaxSearch.MinFoldSpec | MMAgent.java:84-93 | the MIN loop likewise, with minimum and `<=` |
| MinimaxSearch.MinimaxInner | MMAgent.java:65-95 | at an inner node, `minimax`'s score is the max (MAX) or min (MIN) of the children's scores, attained by the last such child, whose label is the move |
| MinimaxSearch.MinimaxInRange | MMAgent.java:65-95 | every score `minimax` returns is a Java int |
| MinimaxSearch.FoldInRange | MMAgent.java:74-93 | the child loops keep a Java-int value a Java int |
| MinimaxSearch.MinimaxMoveLegal | MMAgent.java:194-197 | on a board in play, the root's move is a non-empty house 0..5 |
| MinimaxSearch.MinimaxOnlyMove | MMAgent.java:194-197 | when only house m of 0..5 is non-empty, the move is m |
| MinimaxAgent.Minimax | MMAgent.java:65-95 | the looping `minimax` equals its recursive specification |
| MinimaxAgent.Move | MMAgent.java:194-197 | `move` returns the depth-7 minimax move, and on a board in play a non-empty house 0..5 |
| MTDFSearch.AlphaBetaInRange | MTDFAgent.java:228-303 | `alphaBetaWithMemory` returns a Java int and keeps every stored bound a Java int |
| MTDFSearch.MaxLoopInRange | MTDFAgent.java:255-266 | the MAX child loop keeps value and table in the Java int range |
| MTDFSearch.MinLoopInRange | MTDFAgent.java:267-279 | the MIN child loop likewise |
| MTDFSearch.MaxLoopBest | MTDFAgent.java:255-266 | the best move of the MAX loop is the label of a child, once a child has been examined from Integer.MIN_VALUE |
| MTDFSearch.RootMoveLegal | MTDFAgent.java:228-303 | the root, labelled -10, never uses the table, and on a board in play at depth >= 1 returns a non-empty house 0..5 |
| MTDFSearch.ProbeProgress | MTDFAgent.java:204-212 | each probe's null window (beta - 1, beta) has lowerbound < beta <= upperbound, so a result below beta lowers upperbound and any other raises lowerbound |
| MTDFSearch.MTDFLoopEnds | MTDFAgent.java:197-215 | `MTDF` stops only once lowerbound >= upperbound, with bounds only tightened |
| MTDFSearch.EmptyWindowFalseBound | MTDFAgent.java:267-291 | a MIN node entered with alpha >= beta stops after its first child; here, from an empty table, it returns that child's value 0 and stores 0 as its lower bound, although its other child evaluates to -1 |
| MTDFSearch.MTDFInRange | MTDFAgent.java:197-215 | `MTDF` returns a Java-int score and keeps the table in range |
| MTDFSearch.MTDFLoopMove | MTDFAgent.java:197-215 | on a board in play, `MTDF` returns a non-empty house 0..5 |
| MTDFSearch.DeepenLoopMove | MTDFAgent.java:416-423 | the deepening loop never goes past MAX_SEARCH_DEPTH = 100 and keeps a legal move |
| MTDFSearch.DeepenInRange | MTDFAgent.java:416-423 | the deepening loop keeps the table's bounds Java ints |
| MTDFSearch.MoveSearchLegal | MTDFAgent.java:410-425 | `move` on a board in play returns a non-empty house 0..5, after a last depth between 1 and 100 |
| MTDFSearch.MoveSearchInRange | MTDFAgent.java:410-425 | `move` leaves the table's bounds Java ints |
| Agent.MTDFAgent.constructor | MTDFAgent.java:69-81 | the agent keeps the given 14 x 37 Zobrist table and starts with an empty transposition table |
| Agent.MTDFAgent.AlphaBetaWithMemory | MTDFAgent.java:228-303 | the method's result and its new transposition table are those of the search specification |
| Agent.MTDFAgent.MaxChildren | MTDFAgent.java:255-266 | the MAX loop's value, best move and new table are those of its specification |
| Agent.MTDFAgent.MinChildren | MTDFAgent.java:267-279 | the MIN loop's value, best move and new table are those of its specification |
| Agent.MTDFAgent.MTDF | MTDFAgent.java:197-215 | the probe loop's move and new table are those of its specification |
| Agent.MTDFAgent.Move | MTDFAgent.java:410-425 | `move` returns the specification's move and leaves its table. On a board in play the move is a non-empty house 0..5, and the table's bounds stay Java ints |
| ImpSearch.MaxOfSpec | MancalaImp.java:311-313 | the reference MAX value is at least the start value and each child's value, and it is one of them |
| ImpSearch.MinOfSpec | MancalaImp.java:325-327 | the reference MIN value is at most the start value and each child's value, and it is one of them |
| ImpSearch.AlphaBetaSound | MancalaImp.java:302-340 | for any window of Java ints, `alphabeta` is fail-soft sound against minimax: at most alpha only if minimax is, at least beta only if minimax is, and exact inside the window |
| ImpSearch.ABMaxSound | MancalaImp.java:309-322 | the MAX loop, with its cut-off skipped while alpha is Integer.MIN_VALUE, is sound against the max over the children |
| ImpSearch.ABMinSound | MancalaImp.java:323-336 | the MIN loop, with its cut-off skipped while beta is Integer.MAX_VALUE, is sound against the min over the children |
| ImpSearch.FullWindowExact | MancalaImp.java:302-340 | with the window (Integer.MIN_VALUE, Integer.MAX_VALUE) used by `move`, `alphabeta` returns the exact minimax value |
| ImpSearch.AlphaBetaInRange | MancalaImp.java:302-340 | `alphabeta` returns a Java int |
| ImpSearch.ABMaxInRange | MancalaImp.java:309-322 | the MAX loop's value stays a Java int |
| ImpSearch.ABMinInRange | MancalaImp.java:323-336 | the MIN loop's value stays a Java int |
| ImpSearch.ImpMinimaxInRange | MancalaImp.java:302-340 | the reference minimax value is a Java int |
| ImpSearch.FoldsInRange | MancalaImp.java:309-336 | the reference folds keep a Java int a Java int |
| ImpRoot.PlayValueInRange | MancalaImp.java:85-111 | the value of playing a non-empty house at the root is a Java int |
| ImpRoot.PlayValueExact | MancalaImp.java:104-110 | a root move that does not end in store 6 is scored with the exact minimax value of the captured board, MAX to move |
| ImpRoot.ExtraFromSpec | MancalaImp.java:130-160 | the loop of `extraTurnValue` returns the larger of its start value and the values of the non-empty houses, and is one of them |
| ImpRoot.ExtraTurnValueSpec | MancalaImp.java:126-163 | `extraTurnValue` is the maximum over the non-empty houses 0..5 of their values (recursive `extraTurnValue`, or `alphabeta` at depth - 1), and Integer.MIN_VALUE when those houses are all empty |
| ImpRoot.RootFromSpec | MancalaImp.java:85-117 | the loop of `move` is at least every non-empty house's score. It keeps its start house if none reaches the start value, and otherwise returns the last non-empty house attaining the maximum |
| ImpRoot.ImpMoveSpec | MancalaImp.java:77-119 | whenever some house 0..5 holds seeds, `move` returns the last non-empty house 0..5 of maximal value |
| ImpAgent.AlphaBeta | MancalaImp.java:302-340 | the looping `alphabeta` equals its recursive specification |
| ImpAgent.MaxChildren | MancalaImp.java:309-322 | the MAX loop, with its sentinel-guarded cut-off and break, equals its specification |
| ImpAgent.MinChildren | MancalaImp.java:323-336 | the MIN loop likewise |
| ImpAgent.PlayValue | MancalaImp.java:86-111 | sowing a copy and scoring the extra turn or the captured board equals its specification |
| ImpAgent.ExtraTurnValue | MancalaImp.java:126-163 | the looping `extraTurnValue` equals its specification |
| ImpAgent.Move | MancalaImp.java:77-119 | the looping `move` equals its specification, and it returns a non-empty house whenever one exists |

## Left out

- `timeUp` and the wall clock (MTDFAgent.java:58, 88-90) are replaced by a sequence of booleans, one answer per deepening check; once the sequence runs out the time counts as up.
- The random generation of the Zobrist tables (MTDFAgent.java:71-77, MancalaImp.java:39-45) is left out; the table is a parameter of the constructor. The model proves nothing about collisions, because collision-freedom is only probabilistic; of the XOR algebra it proves only the one-slot update (`Zobrist.OneSlotKey`).
- `HashMap` internals are left out; the transposition table is a Dafny `map`.
- `name()` and `reset()` in all three files are not modelled; they are interface plumbing.
- MancalaImp's `TransEntry`, `transTable`, constructor and `zobristKey` are not modelled, because its search never reads them.
- Java int overflow is not modelled; scores stay small on boards of at most 36 seeds, which the InRange lemmas show.
- Boards are values. Changing a copy cannot alias the parent, so "the parent array is never modified" holds by construction and is not a stated property.
- Playable (at most 36 seeds on the board) is also required by MMAgent's and MancalaImp's operations, although only the Zobrist indexing needs it.
- MMAgent's and MancalaImp's searches are methods of a module, not of a class, because they read no agent state.
- ImpAgent.ExtraTurnValue: requires depth >= 1. At depth 0 the source would search at depth -1, which the model excludes; `move` only calls it at depth 10.
- ImpAgent.PlayValue: requires depth >= 1, for the same reason.
- ImpSearch.AlphaBetaSound: states the fail-soft bounds relative to the window (a result <= alpha means minimax <= alpha) and not the sharper result-relative bounds (minimax <= result).
- MTDFSearch.MTDFLoopEnds: the model does not prove that MTD(f) returns the minimax value of the tree, because the search as written stores bounds that can be false, so the theorem cannot be proved for this code. The prune in both loops tests the entry window, `alpha >= beta` (`MTDFAgent.java:265`, `:277`), instead of the running bound. So after a fail-high the MAX loop goes on and searches each later child with a window (a, beta) in which a >= beta. Such a MIN node stops after its first grandchild, returns its value, and stores it as a lower bound (`MTDFAgent.java:284-291`). That bound can exceed the node's true value (`MTDFSearch.EmptyWindowFalseBound`). Whether a later probe then returns a wrong value at the root is not shown here. A corrected search, with the MTD(f)-equals-minimax theorem proved about it, is not part of this model.
- `SlotEntry` reads 0 for a slot outside the table. Only boards with 36 seeds or fewer reach it, and on those that never happens (`Zobrist.SlotEntriesInBounds`).
