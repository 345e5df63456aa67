/** Small concrete game trees on which the two evaluators are worked out. */
module GameExamples {
  import opened GameSpec

  /** A MAX root (state 0) with three non-terminal children 1, 2 and 3 whose
      heuristic values are 3, 7 and 2. */
  function OnePly(): (g: Game<int, int>) {
    Game((s: int, p: Player) => if s == 0 then [1, 2, 3] else [],
         (s: int, ply: int) => NonTerminal,
         (s: int) => if s == 1 then 3 else if s == 2 then 7 else if s == 3 then 2 else 0,
         (s: int) => s)
  }

  /** One ply below a MAX root both evaluators return the best child value
      and visit the root and all three children: nothing can be pruned. */
  lemma OnePlyNoPruning()
    ensures MinimaxOutcome(OnePly(), 0, Max, 0, 1) == Outcome(7, 4)
    ensures AlphaBetaOutcome(OnePly(), 0, Max, 0, NEGINF, INF, 1) == Outcome(7, 4)
  {
    var g := OnePly();
    assert g.successors(0, Max) == [1, 2, 3];
    var succs := [1, 2, 3];
    assert succs[1..] == [2, 3] && succs[1..][1..] == [3] && succs[1..][1..][1..] == [];
    assert MinimaxOutcome(g, 1, Min, 1, 0) == Outcome(3, 1);
    assert MinimaxOutcome(g, 2, Min, 1, 0) == Outcome(7, 1);
    assert MinimaxOutcome(g, 3, Min, 1, 0) == Outcome(2, 1);
    assert MinimaxMax(g, [3], 1, 0, 7) == Outcome(7, 1);
    assert MinimaxMax(g, [2, 3], 1, 0, 3) == Outcome(7, 2);
    assert MinimaxMax(g, succs, 1, 0, NEGINF) == Outcome(7, 3);
    assert AlphaBetaOutcome(g, 1, Min, 1, NEGINF, INF, 0) == Outcome(3, 1);
    assert AlphaBetaOutcome(g, 2, Min, 1, 3, INF, 0) == Outcome(7, 1);
    assert AlphaBetaOutcome(g, 3, Min, 1, 7, INF, 0) == Outcome(2, 1);
    assert AlphaBetaMax(g, [3], 1, 7, INF, 0, 7) == Outcome(7, 1);
    assert AlphaBetaMax(g, [2, 3], 1, 3, INF, 0, 3) == Outcome(7, 2);
    assert AlphaBetaMax(g, succs, 1, NEGINF, INF, 0, NEGINF) == Outcome(7, 3);
  }

  /** A MAX node (state 0) whose second child (state 2) is a won position:
      its utility is the upper bound INF. */
  function WinSecond(): (g: Game<int, int>) {
    Game((s: int, p: Player) => if s == 0 then [1, 2, 3] else [],
         (s: int, ply: int) => if s == 2 then Terminal(INF) else NonTerminal,
         (s: int) => if s == 1 then 4 else if s == 3 then 5 else 0,
         (s: int) => s)
  }

  /** Both evaluators return the win, and alpha-beta never enumerates the
      child after it: it visits three nodes where minimax visits four. */
  lemma WinPrunesLaterSiblings()
    ensures MinimaxOutcome(WinSecond(), 0, Max, 0, 1) == Outcome(INF, 4)
    ensures AlphaBetaOutcome(WinSecond(), 0, Max, 0, NEGINF, INF, 1) == Outcome(INF, 3)
  {
    var g := WinSecond();
    assert g.successors(0, Max) == [1, 2, 3];
    var succs := [1, 2, 3];
    assert succs[1..] == [2, 3] && succs[1..][1..] == [3] && succs[1..][1..][1..] == [];
    assert MinimaxOutcome(g, 1, Min, 1, 0) == Outcome(4, 1);
    assert MinimaxOutcome(g, 2, Min, 1, 0) == Outcome(INF, 1);
    assert MinimaxOutcome(g, 3, Min, 1, 0) == Outcome(5, 1);
    assert MinimaxMax(g, [3], 1, 0, INF) == Outcome(INF, 1);
    assert MinimaxMax(g, [2, 3], 1, 0, 4) == Outcome(INF, 2);
    assert MinimaxMax(g, succs, 1, 0, NEGINF) == Outcome(INF, 3);
    assert AlphaBetaOutcome(g, 1, Min, 1, NEGINF, INF, 0) == Outcome(4, 1);
    assert AlphaBetaOutcome(g, 2, Min, 1, 4, INF, 0) == Outcome(INF, 1);
    assert AlphaBetaMax(g, [2, 3], 1, 4, INF, 0, 4) == Outcome(INF, 1);
    assert AlphaBetaMax(g, succs, 1, NEGINF, INF, 0, NEGINF) == Outcome(INF, 2);
  }
}
