/** The search engine of A2/src/gamePlay.py: the recursive evaluators with
    their transposition table and statistics, proved against the pure
    evaluators of module GameSpec. */
module GamePlay {
  import opened GameSpec

  /** A transposition-table entry: the value found and the depth it was
      searched to. */
  datatype Entry = Entry(value: int, depth: int)

  /** An entry for key answers a query at depth: it exists, it holds value,
      and it was searched at least as deep. */
  ghost predicate Serves<K>(t: map<K, Entry>, key: K, value: int, depth: int) {
    key in t && t[key].value == value && t[key].depth >= depth
  }

  /** The table has no entry for key deep enough to answer at depth. */
  ghost predicate Misses<K>(t: map<K, Entry>, key: K, depth: int) {
    key !in t || t[key].depth < depth
  }

  /** From t0 to t1 no key was dropped, every entry that changed was replaced
      by a strictly deeper one, and every new or changed entry was searched
      to a depth of at most bound. */
  ghost predicate Deepens<K>(t0: map<K, Entry>, t1: map<K, Entry>, bound: int) {
    && t0.Keys <= t1.Keys
    && (forall k :: k in t0 && t1[k] != t0[k] ==> t0[k].depth < t1[k].depth)
    && (forall k :: k in t1 && (k !in t0 || t1[k] != t0[k]) ==> t1[k].depth <= bound)
  }

  lemma DeepensTrans<K>(t0: map<K, Entry>, t1: map<K, Entry>, t2: map<K, Entry>, bound: int)
    requires Deepens(t0, t1, bound) && Deepens(t1, t2, bound)
    ensures Deepens(t0, t2, bound)
  {
  }

  /** Writing (value, depth) for a key the table at t0 missed, after any
      number of writes at smaller depths, only deepens the table. */
  lemma DeepensWrite<K>(t0: map<K, Entry>, t1: map<K, Entry>, key: K, value: int, depth: int)
    requires Misses(t0, key, depth)
    requires Deepens(t0, t1, depth - 1)
    ensures Deepens(t0, t1[key := Entry(value, depth)], depth)
    ensures |t1[key := Entry(value, depth)]| <= |t1| + 1
  {
  }

  /** The state of one top-level search: the fixed collaborators and cache
      flag, the per-call transposition table and the two counters. */
  class Search<S, K(==)> {
    const game: Game<S, K>
    const useTransposition: bool
    var table: map<K, Entry>
    var nodeCount: nat
    var tableHits: nat

    /** A fresh table and zeroed counters. */
    constructor (game: Game<S, K>, useTransposition: bool)
      ensures this.game == game && this.useTransposition == useTransposition
      ensures table == map[] && nodeCount == 0 && tableHits == 0
    {
      this.game := game;
      this.useTransposition := useTransposition;
      table := map[];
      nodeCount := 0;
      tableHits := 0;
    }

    /** One call of the minimax evaluator (do_minimax). */
    method DoMinimax(s: S, p: Player, ply: int, depth: int) returns (ret: int)
      modifies this
      decreases if depth > 0 then depth else 0, 1
      ensures nodeCount > old(nodeCount) && tableHits >= old(tableHits)
      ensures tableHits - old(tableHits) <= nodeCount - old(nodeCount)
      ensures !useTransposition ==>
        && table == old(table) && tableHits == old(tableHits)
        && ret == MinimaxOutcome(game, s, p, ply, depth).value
        && nodeCount == old(nodeCount) + MinimaxOutcome(game, s, p, ply, depth).nodes
      ensures useTransposition ==>
        && Serves(table, game.encode(s), ret, depth)
        && Deepens(old(table), table, depth)
        && |table| - |old(table)| <= (nodeCount - old(nodeCount)) - (tableHits - old(tableHits))
      ensures useTransposition && Misses(old(table), game.encode(s), depth) ==>
        tableHits - old(tableHits) < nodeCount - old(nodeCount)
      ensures useTransposition && !Misses(old(table), game.encode(s), depth) ==>
        && ret == old(table)[game.encode(s)].value && table == old(table)
        && nodeCount == old(nodeCount) + 1 && tableHits == old(tableHits) + 1
      ensures useTransposition && Misses(old(table), game.encode(s), depth) ==>
        match game.utility(s, ply)
        case Terminal(u) => ret == u
        case NonTerminal =>
          if depth <= 0 then ret == game.evaluation(s)
          else if game.successors(s, p) == [] then ret == DRAW
          else nodeCount - old(nodeCount) >= 1 + |game.successors(s, p)|
      ensures useTransposition && Misses(old(table), game.encode(s), depth)
              && (game.utility(s, ply).Terminal? || depth <= 0 || game.successors(s, p) == []) ==>
        && nodeCount == old(nodeCount) + 1 && tableHits == old(tableHits)
        && table == old(table)[game.encode(s) := Entry(ret, depth)]
    {
      nodeCount := nodeCount + 1;
      var key := game.encode(s);
      if useTransposition && key in table && depth <= table[key].depth {
        tableHits := tableHits + 1;
        return table[key].value;
      }
      ghost var t0 := table;
      match game.utility(s, ply) {
        case Terminal(u) =>
          ret := u;
        case NonTerminal =>
          if depth <= 0 {
            ret := game.evaluation(s);
          } else {
            var succs := game.successors(s, p);
            if |succs| == 0 {
              ret := DRAW;
            } else if p == Max {
              ret := MinimaxMaxLoop(succs, ply + 1, depth - 1);
            } else {
              ret := MinimaxMinLoop(succs, ply + 1, depth - 1);
            }
          }
      }
      if useTransposition {
        DeepensWrite(t0, table, key, ret, depth);
        table := table[key := Entry(ret, depth)];
      }
    }

    /** The children loop of a MAX node in do_minimax: every successor is
        searched with MIN to move and best_value keeps the maximum. */
    method MinimaxMaxLoop(succs: seq<S>, ply: int, depth: nat) returns (best: int)
      modifies this
      decreases depth + 1, 0
      ensures nodeCount >= old(nodeCount) && tableHits >= old(tableHits)
      ensures tableHits - old(tableHits) <= nodeCount - old(nodeCount)
      ensures !useTransposition ==>
        && table == old(table) && tableHits == old(tableHits)
        && best == MinimaxMax(game, succs, ply, depth, NEGINF).value
        && nodeCount == old(nodeCount) + MinimaxMax(game, succs, ply, depth, NEGINF).nodes
      ensures useTransposition ==>
        && Deepens(old(table), table, depth)
        && |table| - |old(table)| <= (nodeCount - old(nodeCount)) - (tableHits - old(tableHits))
      ensures nodeCount - old(nodeCount) >= |succs|
    {
      best := NEGINF;
      var i := 0;
      while i < |succs|
        invariant 0 <= i <= |succs|
        invariant nodeCount >= old(nodeCount) && tableHits >= old(tableHits)
        invariant nodeCount - old(nodeCount) >= i
        invariant tableHits - old(tableHits) <= nodeCount - old(nodeCount)
        invariant !useTransposition ==>
          && table == old(table) && tableHits == old(tableHits)
          && MinimaxMax(game, succs[i..], ply, depth, best).value == MinimaxMax(game, succs, ply, depth, NEGINF).value
          && nodeCount - old(nodeCount) + MinimaxMax(game, succs[i..], ply, depth, best).nodes
               == MinimaxMax(game, succs, ply, depth, NEGINF).nodes
        invariant useTransposition ==>
          && Deepens(old(table), table, depth)
          && |table| - |old(table)| <= (nodeCount - old(nodeCount)) - (tableHits - old(tableHits))
      {
        ghost var t1 := table;
        assert succs[i..][1..] == succs[i + 1..];
        var v := DoMinimax(succs[i], Min, ply, depth);
        if useTransposition { DeepensTrans(old(table), t1, table, depth); }
        best := MaxOf(best, v);
        i := i + 1;
      }
    }

    /** The children loop of a MIN node in do_minimax: every successor is
        searched with MAX to move and best_value keeps the minimum. */
    method MinimaxMinLoop(succs: seq<S>, ply: int, depth: nat) returns (best: int)
      modifies this
      decreases depth + 1, 0
      ensures nodeCount >= old(nodeCount) && tableHits >= old(tableHits)
      ensures tableHits - old(tableHits) <= nodeCount - old(nodeCount)
      ensures !useTransposition ==>
        && table == old(table) && tableHits == old(tableHits)
        && best == MinimaxMin(game, succs, ply, depth, INF).value
        && nodeCount == old(nodeCount) + MinimaxMin(game, succs, ply, depth, INF).nodes
      ensures useTransposition ==>
        && Deepens(old(table), table, depth)
        && |table| - |old(table)| <= (nodeCount - old(nodeCount)) - (tableHits - old(tableHits))
      ensures nodeCount - old(nodeCount) >= |succs|
    {
      best := INF;
      var i := 0;
      while i < |succs|
        invariant 0 <= i <= |succs|
        invariant nodeCount >= old(nodeCount) && tableHits >= old(tableHits)
        invariant nodeCount - old(nodeCount) >= i
        invariant tableHits - old(tableHits) <= nodeCount - old(nodeCount)
        invariant !useTransposition ==>
          && table == old(table) && tableHits == old(tableHits)
          && MinimaxMin(game, succs[i..], ply, depth, best).value == MinimaxMin(game, succs, ply, depth, INF).value
          && nodeCount - old(nodeCount) + MinimaxMin(game, succs[i..], ply, depth, best).nodes
               == MinimaxMin(game, succs, ply, depth, INF).nodes
        invariant useTransposition ==>
          && Deepens(old(table), table, depth)
          && |table| - |old(table)| <= (nodeCount - old(nodeCount)) - (tableHits - old(tableHits))
      {
        ghost var t1 := table;
        assert succs[i..][1..] == succs[i + 1..];
        var v := DoMinimax(succs[i], Max, ply, depth);
        if useTransposition { DeepensTrans(old(table), t1, table, depth); }
        best := MinOf(best, v);
        i := i + 1;
      }
    }

    /** One call of the alpha-beta evaluator (do_alphaBeta) with window
        (alpha, beta). */
    method DoAlphaBeta(s: S, p: Player, ply: int, alpha: int, beta: int, depth: int) returns (ret: int)
      modifies this
      decreases if depth > 0 then depth else 0, 1
      ensures nodeCount > old(nodeCount) && tableHits >= old(tableHits)
      ensures tableHits - old(tableHits) <= nodeCount - old(nodeCount)
      ensures !useTransposition ==>
        && table == old(table) && tableHits == old(tableHits)
        && ret == AlphaBetaOutcome(game, s, p, ply, alpha, beta, depth).value
        && nodeCount == old(nodeCount) + AlphaBetaOutcome(game, s, p, ply, alpha, beta, depth).nodes
      ensures useTransposition ==>
        && Serves(table, game.encode(s), ret, depth)
        && Deepens(old(table), table, depth)
        && |table| - |old(table)| <= (nodeCount - old(nodeCount)) - (tableHits - old(tableHits))
      ensures useTransposition && Misses(old(table), game.encode(s), depth) ==>
        tableHits - old(tableHits) < nodeCount - old(nodeCount)
      ensures useTransposition && !Misses(old(table), game.encode(s), depth) ==>
        && ret == old(table)[game.encode(s)].value && table == old(table)
        && nodeCount == old(nodeCount) + 1 && tableHits == old(tableHits) + 1
      ensures useTransposition && Misses(old(table), game.encode(s), depth) ==>
        match game.utility(s, ply)
        case Terminal(u) => ret == u
        case NonTerminal =>
          if depth <= 0 then ret == game.evaluation(s)
          else if game.successors(s, p) == [] then ret == DRAW
          else nodeCount - old(nodeCount) >= 2
      ensures useTransposition && Misses(old(table), game.encode(s), depth)
              && (game.utility(s, ply).Terminal? || depth <= 0 || game.successors(s, p) == []) ==>
        && nodeCount == old(nodeCount) + 1 && tableHits == old(tableHits)
        && table == old(table)[game.encode(s) := Entry(ret, depth)]
    {
      nodeCount := nodeCount + 1;
      var key := game.encode(s);
      if useTransposition && key in table && depth <= table[key].depth {
        tableHits := tableHits + 1;
        return table[key].value;
      }
      ghost var t0 := table;
      match game.utility(s, ply) {
        case Terminal(u) =>
          ret := u;
        case NonTerminal =>
          if depth <= 0 {
            ret := game.evaluation(s);
          } else {
            var succs := game.successors(s, p);
            if |succs| == 0 {
              ret := DRAW;
            } else if p == Max {
              ret := AlphaBetaMaxLoop(succs, ply + 1, alpha, beta, depth - 1);
            } else {
              ret := AlphaBetaMinLoop(succs, ply + 1, alpha, beta, depth - 1);
            }
          }
      }
      if useTransposition {
        DeepensWrite(t0, table, key, ret, depth);
        table := table[key := Entry(ret, depth)];
      }
    }

    /** The children loop of a MAX node in do_alphaBeta: v and alpha grow
        child by child, and the loop breaks once beta <= alpha. */
    method AlphaBetaMaxLoop(succs: seq<S>, ply: int, alpha: int, beta: int, depth: nat) returns (v: int)
      modifies this
      decreases depth + 1, 0
      ensures nodeCount >= old(nodeCount) && tableHits >= old(tableHits)
      ensures tableHits - old(tableHits) <= nodeCount - old(nodeCount)
      ensures !useTransposition ==>
        && table == old(table) && tableHits == old(tableHits)
        && v == AlphaBetaMax(game, succs, ply, alpha, beta, depth, NEGINF).value
        && nodeCount == old(nodeCount) + AlphaBetaMax(game, succs, ply, alpha, beta, depth, NEGINF).nodes
      ensures useTransposition ==>
        && Deepens(old(table), table, depth)
        && |table| - |old(table)| <= (nodeCount - old(nodeCount)) - (tableHits - old(tableHits))
      ensures succs != [] ==> nodeCount - old(nodeCount) >= 1
    {
      v := NEGINF;
      var a := alpha;
      var i := 0;
      while i < |succs|
        invariant 0 <= i <= |succs|
        invariant nodeCount >= old(nodeCount) && tableHits >= old(tableHits)
        invariant nodeCount - old(nodeCount) >= i
        invariant tableHits - old(tableHits) <= nodeCount - old(nodeCount)
        invariant !useTransposition ==>
          && table == old(table) && tableHits == old(tableHits)
          && AlphaBetaMax(game, succs[i..], ply, a, beta, depth, v).value
               == AlphaBetaMax(game, succs, ply, alpha, beta, depth, NEGINF).value
          && nodeCount - old(nodeCount) + AlphaBetaMax(game, succs[i..], ply, a, beta, depth, v).nodes
               == AlphaBetaMax(game, succs, ply, alpha, beta, depth, NEGINF).nodes
        invariant useTransposition ==>
          && Deepens(old(table), table, depth)
          && |table| - |old(table)| <= (nodeCount - old(nodeCount)) - (tableHits - old(tableHits))
      {
        ghost var t1 := table;
        assert succs[i..][1..] == succs[i + 1..];
        var c := DoAlphaBeta(succs[i], Min, ply, a, beta, depth);
        if useTransposition { DeepensTrans(old(table), t1, table, depth); }
        v := MaxOf(v, c);
        a := MaxOf(a, v);
        if beta <= a {
          break;
        }
        i := i + 1;
      }
    }

    /** The children loop of a MIN node in do_alphaBeta: v and beta shrink
        child by child, and the loop breaks once beta <= alpha. */
    method AlphaBetaMinLoop(succs: seq<S>, ply: int, alpha: int, beta: int, depth: nat) returns (v: int)
      modifies this
      decreases depth + 1, 0
      ensures nodeCount >= old(nodeCount) && tableHits >= old(tableHits)
      ensures tableHits - old(tableHits) <= nodeCount - old(nodeCount)
      ensures !useTransposition ==>
        && table == old(table) && tableHits == old(tableHits)
        && v == AlphaBetaMin(game, succs, ply, alpha, beta, depth, INF).value
        && nodeCount == old(nodeCount) + AlphaBetaMin(game, succs, ply, alpha, beta, depth, INF).nodes
      ensures useTransposition ==>
        && Deepens(old(table), table, depth)
        && |table| - |old(table)| <= (nodeCount - old(nodeCount)) - (tableHits - old(tableHits))
      ensures succs != [] ==> nodeCount - old(nodeCount) >= 1
    {
      v := INF;
      var b := beta;
      var i := 0;
      while i < |succs|
        invariant 0 <= i <= |succs|
        invariant nodeCount >= old(nodeCount) && tableHits >= old(tableHits)
        invariant nodeCount - old(nodeCount) >= i
        invariant tableHits - old(tableHits) <= nodeCount - old(nodeCount)
        invariant !useTransposition ==>
          && table == old(table) && tableHits == old(tableHits)
          && AlphaBetaMin(game, succs[i..], ply, alpha, b, depth, v).value
               == AlphaBetaMin(game, succs, ply, alpha, beta, depth, INF).value
          && nodeCount - old(nodeCount) + AlphaBetaMin(game, succs[i..], ply, alpha, b, depth, v).nodes
               == AlphaBetaMin(game, succs, ply, alpha, beta, depth, INF).nodes
        invariant useTransposition ==>
          && Deepens(old(table), table, depth)
          && |table| - |old(table)| <= (nodeCount - old(nodeCount)) - (tableHits - old(tableHits))
      {
        ghost var t1 := table;
        assert succs[i..][1..] == succs[i + 1..];
        var c := DoAlphaBeta(succs[i], Max, ply, alpha, b, depth);
        if useTransposition { DeepensTrans(old(table), t1, table, depth); }
        v := MinOf(v, c);
        b := MinOf(b, v);
        if b <= alpha {
          break;
        }
        i := i + 1;
      }
    }
  }

  /** minimax(board, player, ply, depth): runs the evaluator with a fresh
      table and counters and reports (value, table size, nodes, hits). */
  method Minimax<S, K(==)>(game: Game<S, K>, useTransposition: bool, s: S, p: Player, ply: int, depth: int)
    returns (value: int, tableSize: nat, nodeCount: nat, tableHits: nat)
    ensures !useTransposition ==>
      && value == MinimaxOutcome(game, s, p, ply, depth).value
      && nodeCount == MinimaxOutcome(game, s, p, ply, depth).nodes
      && tableSize == 0 && tableHits == 0
    ensures useTransposition ==>
      && 1 <= tableSize <= nodeCount - tableHits
      && tableHits < nodeCount
  {
    var search := new Search(game, useTransposition);
    value := search.DoMinimax(s, p, ply, depth);
    tableSize, nodeCount, tableHits := |search.table|, search.nodeCount, search.tableHits;
  }

  /** alphaBeta(board, player, ply, depth): runs the evaluator from the
      window (NEGINF, INF) with a fresh table and counters. Without the
      cache its value is the minimax value (when the evaluator respects the
      sentinels) and it visits no more nodes than minimax. */
  method AlphaBeta<S(!new), K(==)>(game: Game<S, K>, useTransposition: bool, s: S, p: Player, ply: int, depth: int)
    returns (value: int, tableSize: nat, nodeCount: nat, tableHits: nat)
    ensures !useTransposition ==>
      && value == AlphaBetaOutcome(game, s, p, ply, NEGINF, INF, depth).value
      && nodeCount == AlphaBetaOutcome(game, s, p, ply, NEGINF, INF, depth).nodes
      && nodeCount <= MinimaxOutcome(game, s, p, ply, depth).nodes
      && tableSize == 0 && tableHits == 0
    ensures !useTransposition && Bounded(game) ==>
      value == MinimaxOutcome(game, s, p, ply, depth).value
    ensures useTransposition ==>
      && 1 <= tableSize <= nodeCount - tableHits
      && tableHits < nodeCount
  {
    var search := new Search(game, useTransposition);
    value := search.DoAlphaBeta(s, p, ply, NEGINF, INF, depth);
    tableSize, nodeCount, tableHits := |search.table|, search.nodeCount, search.tableHits;
    AlphaBetaVisitsNoMore(game, s, p, ply, NEGINF, INF, depth);
    if Bounded(game) {
      AlphaBetaEqualsMinimax(game, s, p, ply, depth);
    }
  }
}
