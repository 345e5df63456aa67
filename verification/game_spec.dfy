/** Pure specification of the adversarial search in A2/src/gamePlay.py.

    The game itself (board, move generation, evaluation, canonical encoding)
    is external to the engine; it is given here as a record of functions.
    The two evaluators are written as functions that return the value of a
    position together with the number of nodes the search visits, so that the
    imperative engine in module GamePlay can be proved against them. */
module GameSpec {

  /** Sentinel bounds (+infinity / -infinity) and the value of a position
      with no legal continuation. */
  const INF: int := 1000000
  const NEGINF: int := -INF
  const DRAW: int := 0

  datatype Player = Max | Min

  /** What the position evaluator says about a state at a given ply: either
      the game is not over, or it is over with the given utility. */
  datatype Utility = NonTerminal | Terminal(value: int)

  /** The collaborators the engine consumes. */
  datatype Game<!S, K> = Game(
    successors: (S, Player) -> seq<S>,
    utility: (S, int) -> Utility,
    evaluation: S -> int,
    encode: S -> K)

  /** The value of a search and the number of nodes (calls) it took. */
  datatype Outcome = Outcome(value: int, nodes: nat)

  function MaxOf(a: int, b: int): (r: int) { if a >= b then a else b }
  function MinOf(a: int, b: int): (r: int) { if a <= b then a else b }

  /** The evaluator keeps to the sentinel bounds: terminal utilities and
      heuristic scores lie within [NEGINF, INF]. */
  ghost predicate Bounded<S(!new), K>(g: Game<S, K>) {
    && (forall s, ply :: g.utility(s, ply).Terminal? ==> NEGINF <= g.utility(s, ply).value <= INF)
    && (forall s :: NEGINF <= g.evaluation(s) <= INF)
  }

  // ---------------------------------------------------------------------
  // Minimax
  // ---------------------------------------------------------------------

  /** Depth-limited minimax without a transposition table. */
  function MinimaxOutcome<S, K>(g: Game<S, K>, s: S, p: Player, ply: int, depth: int): (r: Outcome)
    ensures r.nodes >= 1
    decreases if depth > 0 then depth else 0, 1, 0
  {
    match g.utility(s, ply)
    case Terminal(u) => Outcome(u, 1)
    case NonTerminal =>
      if depth <= 0 then Outcome(g.evaluation(s), 1)
      else
        var succs := g.successors(s, p);
        if |succs| == 0 then Outcome(DRAW, 1)
        else
          var o := if p == Max then MinimaxMax(g, succs, ply + 1, depth - 1, NEGINF)
                   else MinimaxMin(g, succs, ply + 1, depth - 1, INF);
          Outcome(o.value, 1 + o.nodes)
  }

  /** The child loop of a MAX node: the children (MIN to move) are searched
      in order and their values folded into best with max. */
  function MinimaxMax<S, K>(g: Game<S, K>, succs: seq<S>, ply: int, depth: nat, best: int): (r: Outcome)
    ensures r.value >= best
    ensures r.nodes >= |succs|
    decreases depth + 1, 0, |succs|
  {
    if succs == [] then Outcome(best, 0)
    else
      var c := MinimaxOutcome(g, succs[0], Min, ply, depth);
      var rest := MinimaxMax(g, succs[1..], ply, depth, MaxOf(best, c.value));
      Outcome(rest.value, c.nodes + rest.nodes)
  }

  /** The child loop of a MIN node, folding with min. */
  function MinimaxMin<S, K>(g: Game<S, K>, succs: seq<S>, ply: int, depth: nat, best: int): (r: Outcome)
    ensures r.value <= best
    ensures r.nodes >= |succs|
    decreases depth + 1, 0, |succs|
  {
    if succs == [] then Outcome(best, 0)
    else
      var c := MinimaxOutcome(g, succs[0], Max, ply, depth);
      var rest := MinimaxMin(g, succs[1..], ply, depth, MinOf(best, c.value));
      Outcome(rest.value, c.nodes + rest.nodes)
  }

  // ---------------------------------------------------------------------
  // Alpha-beta
  // ---------------------------------------------------------------------

  /** Depth-limited fail-soft alpha-beta without a transposition table. */
  function AlphaBetaOutcome<S, K>(g: Game<S, K>, s: S, p: Player, ply: int, alpha: int, beta: int, depth: int): (r: Outcome)
    ensures r.nodes >= 1
    decreases if depth > 0 then depth else 0, 1, 0
  {
    match g.utility(s, ply)
    case Terminal(u) => Outcome(u, 1)
    case NonTerminal =>
      if depth <= 0 then Outcome(g.evaluation(s), 1)
      else
        var succs := g.successors(s, p);
        if |succs| == 0 then Outcome(DRAW, 1)
        else
          var o := if p == Max then AlphaBetaMax(g, succs, ply + 1, alpha, beta, depth - 1, NEGINF)
                   else AlphaBetaMin(g, succs, ply + 1, alpha, beta, depth - 1, INF);
          Outcome(o.value, 1 + o.nodes)
  }

  /** The child loop of a MAX node: v and alpha grow, and the loop stops as
      soon as beta <= alpha (beta cut-off). */
  function AlphaBetaMax<S, K>(g: Game<S, K>, succs: seq<S>, ply: int, alpha: int, beta: int, depth: nat, v: int): (r: Outcome)
    ensures r.value >= v
    ensures succs != [] ==> r.nodes >= 1
    decreases depth + 1, 0, |succs|
  {
    if succs == [] then Outcome(v, 0)
    else
      var c := AlphaBetaOutcome(g, succs[0], Min, ply, alpha, beta, depth);
      var v' := MaxOf(v, c.value);
      var alpha' := MaxOf(alpha, v');
      if beta <= alpha' then Outcome(v', c.nodes)
      else
        var rest := AlphaBetaMax(g, succs[1..], ply, alpha', beta, depth, v');
        Outcome(rest.value, c.nodes + rest.nodes)
  }

  /** The child loop of a MIN node: v and beta shrink, and the loop stops as
      soon as beta <= alpha (alpha cut-off). */
  function AlphaBetaMin<S, K>(g: Game<S, K>, succs: seq<S>, ply: int, alpha: int, beta: int, depth: nat, v: int): (r: Outcome)
    ensures r.value <= v
    ensures succs != [] ==> r.nodes >= 1
    decreases depth + 1, 0, |succs|
  {
    if succs == [] then Outcome(v, 0)
    else
      var c := AlphaBetaOutcome(g, succs[0], Max, ply, alpha, beta, depth);
      var v' := MinOf(v, c.value);
      var beta' := MinOf(beta, v');
      if beta' <= alpha then Outcome(v', c.nodes)
      else
        var rest := AlphaBetaMin(g, succs[1..], ply, alpha, beta', depth, v');
        Outcome(rest.value, c.nodes + rest.nodes)
  }

  // ---------------------------------------------------------------------
  // Node kinds
  // ---------------------------------------------------------------------

  /** The three leaf cases are the same for both evaluators and visit only
      the node itself: a terminal utility is returned as is, a depth cutoff
      returns the heuristic, and a node without successors is a draw for
      either player. */
  lemma LeafCases<S, K>(g: Game<S, K>, s: S, p: Player, ply: int, alpha: int, beta: int, depth: int)
    ensures g.utility(s, ply).Terminal? ==>
      MinimaxOutcome(g, s, p, ply, depth) == AlphaBetaOutcome(g, s, p, ply, alpha, beta, depth)
        == Outcome(g.utility(s, ply).value, 1)
    ensures g.utility(s, ply).NonTerminal? && depth <= 0 ==>
      MinimaxOutcome(g, s, p, ply, depth) == AlphaBetaOutcome(g, s, p, ply, alpha, beta, depth)
        == Outcome(g.evaluation(s), 1)
    ensures g.utility(s, ply).NonTerminal? && depth > 0 && g.successors(s, p) == [] ==>
      MinimaxOutcome(g, s, p, ply, depth) == AlphaBetaOutcome(g, s, p, ply, alpha, beta, depth)
        == Outcome(DRAW, 1)
  {
  }

  /** A MAX node's loop yields the largest of the seed and the children's
      minimax values. */
  lemma {:induction false} MinimaxMaxIsMaximum<S, K>(g: Game<S, K>, succs: seq<S>, ply: int, depth: nat, best: int)
    ensures var r := MinimaxMax(g, succs, ply, depth, best);
      && r.value >= best
      && (forall i :: 0 <= i < |succs| ==> r.value >= MinimaxOutcome(g, succs[i], Min, ply, depth).value)
      && (r.value == best || exists i :: 0 <= i < |succs| && r.value == MinimaxOutcome(g, succs[i], Min, ply, depth).value)
    decreases |succs|
  {
    if succs != [] {
      var c := MinimaxOutcome(g, succs[0], Min, ply, depth);
      MinimaxMaxIsMaximum(g, succs[1..], ply, depth, MaxOf(best, c.value));
      var r := MinimaxMax(g, succs, ply, depth, best);
      forall i | 0 <= i < |succs|
        ensures r.value >= MinimaxOutcome(g, succs[i], Min, ply, depth).value
      {
        if i > 0 { assert succs[i] == succs[1..][i - 1]; }
      }
      if r.value != best && r.value != c.value {
        var j :| 0 <= j < |succs[1..]| && r.value == MinimaxOutcome(g, succs[1..][j], Min, ply, depth).value;
        assert succs[1..][j] == succs[j + 1];
      }
    }
  }

  /** A MIN node's loop yields the smallest of the seed and the children's
      minimax values. */
  lemma {:induction false} MinimaxMinIsMinimum<S, K>(g: Game<S, K>, succs: seq<S>, ply: int, depth: nat, best: int)
    ensures var r := MinimaxMin(g, succs, ply, depth, best);
      && r.value <= best
      && (forall i :: 0 <= i < |succs| ==> r.value <= MinimaxOutcome(g, succs[i], Max, ply, depth).value)
      && (r.value == best || exists i :: 0 <= i < |succs| && r.value == MinimaxOutcome(g, succs[i], Max, ply, depth).value)
    decreases |succs|
  {
    if succs != [] {
      var c := MinimaxOutcome(g, succs[0], Max, ply, depth);
      MinimaxMinIsMinimum(g, succs[1..], ply, depth, MinOf(best, c.value));
      var r := MinimaxMin(g, succs, ply, depth, best);
      forall i | 0 <= i < |succs|
        ensures r.value <= MinimaxOutcome(g, succs[i], Max, ply, depth).value
      {
        if i > 0 { assert succs[i] == succs[1..][i - 1]; }
      }
      if r.value != best && r.value != c.value {
        var j :| 0 <= j < |succs[1..]| && r.value == MinimaxOutcome(g, succs[1..][j], Max, ply, depth).value;
        assert succs[1..][j] == succs[j + 1];
      }
    }
  }

  /** With an evaluator that respects the sentinels, every minimax value
      lies within [NEGINF, INF]. */
  lemma {:induction false} MinimaxBounded<S(!new), K>(g: Game<S, K>, s: S, p: Player, ply: int, depth: int)
    requires Bounded(g)
    ensures NEGINF <= MinimaxOutcome(g, s, p, ply, depth).value <= INF
    decreases if depth > 0 then depth else 0
  {
    if g.utility(s, ply).NonTerminal? && depth > 0 {
      var succs := g.successors(s, p);
      if |succs| > 0 {
        var q := if p == Max then Min else Max;
        forall i | 0 <= i < |succs|
          ensures NEGINF <= MinimaxOutcome(g, succs[i], q, ply + 1, depth - 1).value <= INF
        {
          MinimaxBounded(g, succs[i], q, ply + 1, depth - 1);
        }
        if p == Max {
          MinimaxMaxIsMaximum(g, succs, ply + 1, depth - 1, NEGINF);
        } else {
          MinimaxMinIsMinimum(g, succs, ply + 1, depth - 1, INF);
        }
      }
    }
  }

  // ---------------------------------------------------------------------
  // Seeds of the folds
  // ---------------------------------------------------------------------

  /** Raising the seed of a MAX loop raises its result the same way; the
      nodes visited do not depend on the seed. */
  lemma {:induction false} MinimaxMaxSeed<S, K>(g: Game<S, K>, succs: seq<S>, ply: int, depth: nat, x: int, y: int)
    ensures MinimaxMax(g, succs, ply, depth, MaxOf(x, y)).value == MaxOf(x, MinimaxMax(g, succs, ply, depth, y).value)
    ensures MinimaxMax(g, succs, ply, depth, x).nodes == MinimaxMax(g, succs, ply, depth, y).nodes
    decreases |succs|
  {
    if succs != [] {
      var c := MinimaxOutcome(g, succs[0], Min, ply, depth);
      assert MaxOf(MaxOf(x, y), c.value) == MaxOf(x, MaxOf(y, c.value));
      MinimaxMaxSeed(g, succs[1..], ply, depth, x, MaxOf(y, c.value));
      MinimaxMaxSeed(g, succs[1..], ply, depth, MaxOf(x, c.value), MaxOf(y, c.value));
    }
  }

  /** Lowering the seed of a MIN loop lowers its result the same way; the
      nodes visited do not depend on the seed. */
  lemma {:induction false} MinimaxMinSeed<S, K>(g: Game<S, K>, succs: seq<S>, ply: int, depth: nat, x: int, y: int)
    ensures MinimaxMin(g, succs, ply, depth, MinOf(x, y)).value == MinOf(x, MinimaxMin(g, succs, ply, depth, y).value)
    ensures MinimaxMin(g, succs, ply, depth, x).nodes == MinimaxMin(g, succs, ply, depth, y).nodes
    decreases |succs|
  {
    if succs != [] {
      var c := MinimaxOutcome(g, succs[0], Max, ply, depth);
      assert MinOf(MinOf(x, y), c.value) == MinOf(x, MinOf(y, c.value));
      MinimaxMinSeed(g, succs[1..], ply, depth, x, MinOf(y, c.value));
      MinimaxMinSeed(g, succs[1..], ply, depth, MinOf(x, c.value), MinOf(y, c.value));
    }
  }

  // ---------------------------------------------------------------------
  // Alpha-beta is fail-soft with respect to minimax
  // ---------------------------------------------------------------------

  /** The fail-soft property of alpha-beta against the true minimax value m:
      a result r <= alpha is an upper bound of m, a result r >= beta is a
      lower bound of m, and a result strictly inside the window is m. */
  ghost predicate FailSoft(r: int, m: int, alpha: int, beta: int) {
    && (r <= alpha ==> m <= r)
    && (r >= beta ==> m >= r)
    && (alpha < r < beta ==> m == r)
  }

  lemma {:induction false} AlphaBetaFailSoft<S, K>(g: Game<S, K>, s: S, p: Player, ply: int, alpha: int, beta: int, depth: int)
    requires NEGINF <= alpha < beta <= INF
    ensures FailSoft(AlphaBetaOutcome(g, s, p, ply, alpha, beta, depth).value,
                     MinimaxOutcome(g, s, p, ply, depth).value, alpha, beta)
    decreases if depth > 0 then depth else 0, 1, 0
  {
    if g.utility(s, ply).NonTerminal? && depth > 0 {
      var succs := g.successors(s, p);
      if |succs| > 0 {
        if p == Max {
          AlphaBetaMaxFailSoft(g, succs, ply + 1, alpha, beta, depth - 1, NEGINF);
        } else {
          AlphaBetaMinFailSoft(g, succs, ply + 1, alpha, beta, depth - 1, INF);
        }
      }
    }
  }

  /** The MAX loop, from any point: with current alpha a < beta and v <= a,
      the loop's result is fail-soft against the minimax fold seeded with v,
      and never smaller than v. */
  lemma {:induction false} AlphaBetaMaxFailSoft<S, K>(g: Game<S, K>, succs: seq<S>, ply: int, a: int, beta: int, depth: nat, v: int)
    requires NEGINF <= a < beta <= INF
    requires v <= a
    ensures AlphaBetaMax(g, succs, ply, a, beta, depth, v).value >= v
    ensures FailSoft(AlphaBetaMax(g, succs, ply, a, beta, depth, v).value,
                     MinimaxMax(g, succs, ply, depth, v).value, a, beta)
    decreases depth + 1, 0, |succs|
  {
    if succs != [] {
      var child := succs[0];
      var rest := succs[1..];
      var r0 := AlphaBetaOutcome(g, child, Min, ply, a, beta, depth).value;
      var c0 := MinimaxOutcome(g, child, Min, ply, depth).value;
      AlphaBetaFailSoft(g, child, Min, ply, a, beta, depth);
      var v' := MaxOf(v, r0);
      var a' := MaxOf(a, v');
      var r := AlphaBetaMax(g, succs, ply, a, beta, depth, v).value;
      var m := MinimaxMax(g, succs, ply, depth, v).value;
      // m == max(c0, R(v)) and the fold seeded with v' is max(r0, R(v)).
      MinimaxMaxSeed(g, rest, ply, depth, c0, v);
      MinimaxMaxSeed(g, rest, ply, depth, r0, v);
      assert MaxOf(v, c0) == MaxOf(c0, v) && MaxOf(v, r0) == MaxOf(r0, v);
      var rv := MinimaxMax(g, rest, ply, depth, v).value;
      assert m == MaxOf(c0, rv);
      if beta > a' {
        AlphaBetaMaxFailSoft(g, rest, ply, a', beta, depth, v');
        assert r == AlphaBetaMax(g, rest, ply, a', beta, depth, v').value;
        assert MinimaxMax(g, rest, ply, depth, v').value == MaxOf(r0, rv);
      }
    }
  }

  /** The MIN loop, from any point: with alpha < current beta b and v >= b,
      the loop's result is fail-soft against the minimax fold seeded with v,
      and never larger than v. */
  lemma {:induction false} AlphaBetaMinFailSoft<S, K>(g: Game<S, K>, succs: seq<S>, ply: int, alpha: int, b: int, depth: nat, v: int)
    requires NEGINF <= alpha < b <= INF
    requires v >= b
    ensures AlphaBetaMin(g, succs, ply, alpha, b, depth, v).value <= v
    ensures FailSoft(AlphaBetaMin(g, succs, ply, alpha, b, depth, v).value,
                     MinimaxMin(g, succs, ply, depth, v).value, alpha, b)
    decreases depth + 1, 0, |succs|
  {
    if succs != [] {
      var child := succs[0];
      var rest := succs[1..];
      var r0 := AlphaBetaOutcome(g, child, Max, ply, alpha, b, depth).value;
      var c0 := MinimaxOutcome(g, child, Max, ply, depth).value;
      AlphaBetaFailSoft(g, child, Max, ply, alpha, b, depth);
      var v' := MinOf(v, r0);
      var b' := MinOf(b, v');
      var r := AlphaBetaMin(g, succs, ply, alpha, b, depth, v).value;
      var m := MinimaxMin(g, succs, ply, depth, v).value;
      MinimaxMinSeed(g, rest, ply, depth, c0, v);
      MinimaxMinSeed(g, rest, ply, depth, r0, v);
      assert MinOf(v, c0) == MinOf(c0, v) && MinOf(v, r0) == MinOf(r0, v);
      var rv := MinimaxMin(g, rest, ply, depth, v).value;
      assert m == MinOf(c0, rv);
      if b' > alpha {
        AlphaBetaMinFailSoft(g, rest, ply, alpha, b', depth, v');
        assert r == AlphaBetaMin(g, rest, ply, alpha, b', depth, v').value;
        assert MinimaxMin(g, rest, ply, depth, v').value == MinOf(r0, rv);
      }
    }
  }

  /** Started from the full window (NEGINF, INF), alpha-beta computes the
      minimax value. */
  lemma AlphaBetaEqualsMinimax<S(!new), K>(g: Game<S, K>, s: S, p: Player, ply: int, depth: int)
    requires Bounded(g)
    ensures AlphaBetaOutcome(g, s, p, ply, NEGINF, INF, depth).value == MinimaxOutcome(g, s, p, ply, depth).value
  {
    AlphaBetaFailSoft(g, s, p, ply, NEGINF, INF, depth);
    MinimaxBounded(g, s, p, ply, depth);
  }

  // ---------------------------------------------------------------------
  // Alpha-beta visits no more nodes than minimax
  // ---------------------------------------------------------------------

  lemma {:induction false} AlphaBetaVisitsNoMore<S, K>(g: Game<S, K>, s: S, p: Player, ply: int, alpha: int, beta: int, depth: int)
    ensures AlphaBetaOutcome(g, s, p, ply, alpha, beta, depth).nodes <= MinimaxOutcome(g, s, p, ply, depth).nodes
    decreases if depth > 0 then depth else 0, 1, 0
  {
    if g.utility(s, ply).NonTerminal? && depth > 0 {
      var succs := g.successors(s, p);
      if |succs| > 0 {
        if p == Max {
          AlphaBetaMaxVisitsNoMore(g, succs, ply + 1, alpha, beta, depth - 1, NEGINF, NEGINF);
        } else {
          AlphaBetaMinVisitsNoMore(g, succs, ply + 1, alpha, beta, depth - 1, INF, INF);
        }
      }
    }
  }

  /** A MAX loop searches each child it reaches in no more nodes
      than minimax spends on it. */
  lemma {:induction false} AlphaBetaMaxVisitsNoMore<S, K>(g: Game<S, K>, succs: seq<S>, ply: int, alpha: int, beta: int, depth: nat, v: int, best: int)
    ensures AlphaBetaMax(g, succs, ply, alpha, beta, depth, v).nodes <= MinimaxMax(g, succs, ply, depth, best).nodes
    decreases depth + 1, 0, |succs|
  {
    if succs != [] {
      var c := AlphaBetaOutcome(g, succs[0], Min, ply, alpha, beta, depth);
      var cm := MinimaxOutcome(g, succs[0], Min, ply, depth);
      AlphaBetaVisitsNoMore(g, succs[0], Min, ply, alpha, beta, depth);
      var v' := MaxOf(v, c.value);
      var alpha' := MaxOf(alpha, v');
      var best' := MaxOf(best, cm.value);
      if beta > alpha' {
        AlphaBetaMaxVisitsNoMore(g, succs[1..], ply, alpha', beta, depth, v', best');
      }
    }
  }

  /** A MIN loop searches each child it reaches in no more nodes
      than minimax spends on it. */
  lemma {:induction false} AlphaBetaMinVisitsNoMore<S, K>(g: Game<S, K>, succs: seq<S>, ply: int, alpha: int, beta: int, depth: nat, v: int, best: int)
    ensures AlphaBetaMin(g, succs, ply, alpha, beta, depth, v).nodes <= MinimaxMin(g, succs, ply, depth, best).nodes
    decreases depth + 1, 0, |succs|
  {
    if succs != [] {
      var c := AlphaBetaOutcome(g, succs[0], Max, ply, alpha, beta, depth);
      var cm := MinimaxOutcome(g, succs[0], Max, ply, depth);
      AlphaBetaVisitsNoMore(g, succs[0], Max, ply, alpha, beta, depth);
      var v' := MinOf(v, c.value);
      var beta' := MinOf(beta, v');
      var best' := MinOf(best, cm.value);
      if beta' > alpha {
        AlphaBetaMinVisitsNoMore(g, succs[1..], ply, alpha, beta', depth, v', best');
      }
    }
  }
}
