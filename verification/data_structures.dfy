/** The containers of A1/src/dataStructures.py that drive the uninformed and
    informed searches: a named dictionary, a LIFO stack and a FIFO queue of
    states with element counters, and a priority queue of search nodes paired
    with a table of the best cost seen for each state. */
module DataStructures {

  // -----------------------------------------------------------------------
  // HashableDictionary
  // -----------------------------------------------------------------------

  /** A named dictionary. The source stores each entry under hash(key);
      with hash injective on the stored keys that is a map keyed by the key
      itself, which is what the table field holds. */
  class HashableDictionary<K(==), V> {
    const name: string
    var table: map<K, V>

    constructor (n: string)
      ensures name == n && table == map[]
    {
      name := n;
      table := map[];
    }

    /** d[i] */
    method Get(i: K) returns (x: V)
      requires i in table
      ensures x == table[i]
    {
      x := table[i];
    }

    /** i in d */
    method Contains(i: K) returns (b: bool)
      ensures b <==> i in table
    {
      b := i in table;
    }

    /** d[i] = x: afterwards i is present with x and every other entry is as
        it was. */
    method SetItem(i: K, x: V)
      modifies this
      ensures i in table && table[i] == x
      ensures forall j :: j != i ==> (j in table <==> j in old(table))
      ensures forall j :: j != i && j in old(table) ==> table[j] == old(table)[j]
      ensures table.Keys == old(table).Keys + {i}
    {
      table := table[i := x];
    }

    /** len(d) */
    method Len() returns (n: nat)
      ensures n == |table|
    {
      n := |table|;
    }

    /** d.pop(i): removes exactly the entry for i. */
    method Pop(i: K)
      requires i in table
      modifies this
      ensures table == old(table) - {i}
      ensures |table| == |old(table)| - 1
    {
      table := table - {i};
      assert table.Keys + {i} == old(table).Keys;
    }

    /** d.clone(): a new dictionary with the same name and the same entries,
        copied one by one. */
    method Clone() returns (copy: HashableDictionary<K, V>)
      ensures fresh(copy)
      ensures copy.name == name && copy.table == table
    {
      copy := new HashableDictionary(name);
      var remaining := table.Keys;
      while remaining != {}
        invariant remaining <= table.Keys
        invariant fresh(copy) && copy.name == name
        invariant copy.table == map k | k in table.Keys - remaining :: table[k]
        decreases remaining
      {
        var k :| k in remaining;
        copy.SetItem(k, table[k]);
        remaining := remaining - {k};
      }
    }
  }

  /** Editing a clone leaves the original untouched. */
  method CloneIsIndependent<K(==), V>(d: HashableDictionary<K, V>, i: K, x: V) returns (copy: HashableDictionary<K, V>)
    ensures fresh(copy) && copy != d
    ensures d.table == old(d.table)
    ensures copy.table == old(d.table)[i := x]
  {
    copy := d.Clone();
    copy.SetItem(i, x);
  }

  // -----------------------------------------------------------------------
  // StateStack
  // -----------------------------------------------------------------------

  /** A LIFO stack of states; numEl counts the elements. */
  class StateStack<T> {
    var s: seq<T>
    var numEl: int

    ghost predicate Valid()
      reads this
    {
      numEl == |s|
    }

    constructor ()
      ensures Valid() && s == []
    {
      s := [];
      numEl := 0;
    }

    method Push(state: T)
      requires Valid()
      modifies this
      ensures Valid() && s == old(s) + [state]
    {
      numEl := numEl + 1;
      s := s + [state];
    }

    /** Returns the most recently pushed state that is still on the stack. */
    method Pop() returns (state: T)
      requires Valid() && s != []
      modifies this
      ensures Valid()
      ensures state == old(s)[|old(s)| - 1] && s == old(s)[..|old(s)| - 1]
    {
      numEl := numEl - 1;
      state := s[|s| - 1];
      s := s[..|s| - 1];
    }

    method GetNumEl() returns (n: int)
      requires Valid()
      ensures n == |s|
    {
      n := numEl;
    }

    method IsEmpty() returns (b: bool)
      requires Valid()
      ensures b <==> s == []
    {
      b := numEl == 0;
    }
  }

  // -----------------------------------------------------------------------
  // StateQueue
  // -----------------------------------------------------------------------

  /** A FIFO queue of states. The ghost history records every state ever
      enqueued and taken how many have been dequeued: the queue holds the
      history from position taken on, and numEl is enqueues minus dequeues. */
  class StateQueue<T> {
    var q: seq<T>
    var numEl: int
    ghost var history: seq<T>
    ghost var taken: nat

    ghost predicate Valid()
      reads this
    {
      && taken <= |history|
      && q == history[taken..]
      && numEl == |history| - taken
    }

    constructor ()
      ensures Valid() && q == [] && history == []
    {
      q := [];
      numEl := 0;
      history := [];
      taken := 0;
    }

    /** Returns the oldest state not yet dequeued: the taken-th one enqueued. */
    method Dequeue() returns (state: T)
      requires Valid() && q != []
      modifies this
      ensures Valid() && history == old(history) && taken == old(taken) + 1
      ensures state == history[old(taken)] && state == old(q)[0] && q == old(q)[1..]
    {
      numEl := numEl - 1;
      state := q[0];
      q := q[1..];
      taken := taken + 1;
    }

    method Enqueue(state: T)
      requires Valid()
      modifies this
      ensures Valid() && history == old(history) + [state] && taken == old(taken)
      ensures q == old(q) + [state]
    {
      q := q + [state];
      numEl := numEl + 1;
      history := history + [state];
    }

    method IsEmpty() returns (b: bool)
      requires Valid()
      ensures b <==> numEl == 0
      ensures b <==> q == []
    {
      b := q == [];
    }

    method GetNumEl() returns (n: int)
      requires Valid()
      ensures n == |q|
    {
      n := numEl;
    }
  }

  // -----------------------------------------------------------------------
  // StateHeap
  // -----------------------------------------------------------------------

  /** less is a strict weak order, the kind of order a binary heap needs for
      its root to be minimal: irreflexive, transitive, and whenever x < z
      every y is above x or below z (incomparability is transitive). */
  ghost predicate StrictOrder<N(!new)>(less: (N, N) -> bool) {
    && (forall x :: !less(x, x))
    && (forall x, y, z :: less(x, y) && less(y, z) ==> less(x, z))
    && (forall x, y, z :: less(x, z) ==> less(x, y) || less(y, z))
  }

  /** No element of xs is less than xs[i]. */
  predicate IsMinimalAt<N>(less: (N, N) -> bool, xs: seq<N>, i: int) {
    0 <= i < |xs| && forall j :: 0 <= j < |xs| ==> !less(xs[j], xs[i])
  }

  /** A non-empty sequence has a minimal element under a strict weak order. */
  lemma {:induction false} MinimalExists<N(!new)>(less: (N, N) -> bool, xs: seq<N>)
    requires StrictOrder(less) && |xs| > 0
    ensures exists i :: IsMinimalAt(less, xs, i)
    decreases |xs|
  {
    if |xs| == 1 {
      assert IsMinimalAt(less, xs, 0);
    } else {
      MinimalExists(less, xs[1..]);
      var k :| IsMinimalAt(less, xs[1..], k);
      if less(xs[0], xs[k + 1]) {
        forall j | 0 <= j < |xs|
          ensures !less(xs[j], xs[0])
        {
          if j > 0 {
            assert xs[j] == xs[1..][j - 1];
            assert !less(xs[j], xs[k + 1]);
          }
        }
        assert IsMinimalAt(less, xs, 0);
      } else {
        forall j | 0 <= j < |xs|
          ensures !less(xs[j], xs[k + 1])
        {
          if j > 0 { assert xs[j] == xs[1..][j - 1]; }
        }
        assert IsMinimalAt(less, xs, k + 1);
      }
    }
  }

  /** The states of the nodes in xs. */
  ghost function StatesOf<N, St>(stateOf: N -> St, xs: seq<N>): (r: set<St>) {
    set i | 0 <= i < |xs| :: stateOf(xs[i])
  }

  /** No two nodes of xs share a state. */
  ghost predicate DistinctStates<N, St>(stateOf: N -> St, xs: seq<N>) {
    forall i, j :: 0 <= i < j < |xs| ==> stateOf(xs[i]) != stateOf(xs[j])
  }

  /** With one node per state, there are as many states as nodes. */
  lemma {:induction false} DistinctStatesCount<N, St>(stateOf: N -> St, xs: seq<N>)
    requires DistinctStates(stateOf, xs)
    ensures |StatesOf(stateOf, xs)| == |xs|
    decreases |xs|
  {
    if xs != [] {
      var tail := xs[1..];
      assert DistinctStates(stateOf, tail) by {
        forall i, j | 0 <= i < j < |tail| ensures stateOf(tail[i]) != stateOf(tail[j]) {
          assert tail[i] == xs[i + 1] && tail[j] == xs[j + 1];
        }
      }
      DistinctStatesCount(stateOf, tail);
      assert StatesOf(stateOf, xs) == {stateOf(xs[0])} + StatesOf(stateOf, tail) by {
        forall st | st in StatesOf(stateOf, xs) ensures st in {stateOf(xs[0])} + StatesOf(stateOf, tail) {
          var i :| 0 <= i < |xs| && stateOf(xs[i]) == st;
          if i > 0 { assert xs[i] == tail[i - 1]; }
        }
        forall st | st in StatesOf(stateOf, tail) ensures st in StatesOf(stateOf, xs) {
          var i :| 0 <= i < |tail| && stateOf(tail[i]) == st;
          assert tail[i] == xs[i + 1];
        }
      }
      assert stateOf(xs[0]) !in StatesOf(stateOf, tail) by {
        forall i | 0 <= i < |tail| ensures stateOf(tail[i]) != stateOf(xs[0]) {
          assert tail[i] == xs[i + 1];
        }
      }
    }
  }

  /** The pairing of a node sequence with a cost table: one node per state,
      the table has exactly the nodes' states, each with its node's cost. */
  ghost predicate Indexed<N, St>(stateOf: N -> St, costOf: N -> int, xs: seq<N>, costs: map<St, int>) {
    && DistinctStates(stateOf, xs)
    && costs.Keys == StatesOf(stateOf, xs)
    && (forall i :: 0 <= i < |xs| ==> costs[stateOf(xs[i])] == costOf(xs[i]))
  }

  /** Adding a node for a state not in the table, with its cost. */
  lemma IndexedAppend<N, St>(stateOf: N -> St, costOf: N -> int, xs: seq<N>, costs: map<St, int>, item: N)
    requires Indexed(stateOf, costOf, xs, costs)
    requires stateOf(item) !in costs
    ensures Indexed(stateOf, costOf, xs + [item], costs[stateOf(item) := costOf(item)])
  {
    var ys := xs + [item];
    assert StatesOf(stateOf, ys) == StatesOf(stateOf, xs) + {stateOf(item)} by {
      forall x | x in StatesOf(stateOf, xs) ensures x in StatesOf(stateOf, ys) {
        var j :| 0 <= j < |xs| && stateOf(xs[j]) == x;
        assert stateOf(ys[j]) == x;
      }
      assert stateOf(ys[|xs|]) == stateOf(item);
    }
  }

  /** Replacing the node at i by one for the same state, with its cost. */
  lemma IndexedReplace<N, St>(stateOf: N -> St, costOf: N -> int, xs: seq<N>, costs: map<St, int>, i: int, item: N)
    requires Indexed(stateOf, costOf, xs, costs)
    requires 0 <= i < |xs| && stateOf(xs[i]) == stateOf(item)
    ensures Indexed(stateOf, costOf, xs[i := item], costs[stateOf(item) := costOf(item)])
  {
    var ys := xs[i := item];
    assert StatesOf(stateOf, ys) == StatesOf(stateOf, xs) by {
      forall x | x in StatesOf(stateOf, xs) ensures x in StatesOf(stateOf, ys) {
        var j :| 0 <= j < |xs| && stateOf(xs[j]) == x;
        assert stateOf(ys[j]) == x;
      }
    }
  }

  /** The elements left after removing index i, by position. */
  lemma RemoveAtIndex<N>(xs: seq<N>, i: int)
    requires 0 <= i < |xs|
    ensures |xs[..i] + xs[i + 1..]| == |xs| - 1
    ensures forall j :: 0 <= j < i ==> (xs[..i] + xs[i + 1..])[j] == xs[j]
    ensures forall j :: i < j < |xs| ==> (xs[..i] + xs[i + 1..])[j - 1] == xs[j]
    ensures multiset(xs[..i] + xs[i + 1..]) + multiset{xs[i]} == multiset(xs)
  {
    assert xs == xs[..i] + [xs[i]] + xs[i + 1..];
  }

  /** Removing a node keeps the states distinct. */
  lemma RemoveKeepsDistinct<N, St>(stateOf: N -> St, xs: seq<N>, i: int)
    requires DistinctStates(stateOf, xs)
    requires 0 <= i < |xs|
    ensures DistinctStates(stateOf, xs[..i] + xs[i + 1..])
  {
  }

  /** Removing a node removes exactly its state, when the states are distinct. */
  lemma RemoveStates<N, St>(stateOf: N -> St, xs: seq<N>, i: int)
    requires DistinctStates(stateOf, xs)
    requires 0 <= i < |xs|
    ensures StatesOf(stateOf, xs[..i] + xs[i + 1..]) == StatesOf(stateOf, xs) - {stateOf(xs[i])}
  {
    var ys := xs[..i] + xs[i + 1..];
    RemoveAtIndex(xs, i);
    forall x | x in StatesOf(stateOf, xs) - {stateOf(xs[i])} ensures x in StatesOf(stateOf, ys) {
      var j :| 0 <= j < |xs| && stateOf(xs[j]) == x;
      if j < i { assert ys[j] == xs[j]; } else { assert ys[j - 1] == xs[j]; }
    }
    forall x | x in StatesOf(stateOf, ys) ensures x in StatesOf(stateOf, xs) && x != stateOf(xs[i]) {
      var j :| 0 <= j < |ys| && stateOf(ys[j]) == x;
      var j' := if j < i then j else j + 1;
      assert ys[j] == xs[j'];
    }
  }

  /** Removing the node at i and its state's entry. */
  lemma IndexedRemove<N, St>(stateOf: N -> St, costOf: N -> int, xs: seq<N>, costs: map<St, int>, i: int)
    requires Indexed(stateOf, costOf, xs, costs)
    requires 0 <= i < |xs|
    ensures Indexed(stateOf, costOf, xs[..i] + xs[i + 1..], costs - {stateOf(xs[i])})
    ensures multiset(xs[..i] + xs[i + 1..]) + multiset{xs[i]} == multiset(xs)
  {
    var ys := xs[..i] + xs[i + 1..];
    RemoveAtIndex(xs, i);
    RemoveKeepsDistinct(stateOf, xs, i);
    RemoveStates(stateOf, xs, i);
    forall j | 0 <= j < |ys| ensures (costs - {stateOf(xs[i])})[stateOf(ys[j])] == costOf(ys[j]) {
      var j' := if j < i then j else j + 1;
      assert ys[j] == xs[j'];
    }
  }

  /** A priority queue of search nodes ordered by comparator, with lookup
      holding the cost recorded for every state that has a node in the
      queue. */
  class StateHeap<N(!new), St(==)> {
    const lookup: HashableDictionary<St, int>
    var heapList: seq<N>
    const stateOf: N -> St
    const costOf: N -> int
    const comparator: (N, N) -> bool

    /** One node per state; lookup has exactly the queued states, each with
        the cost of its node. */
    ghost predicate Valid()
      reads this, lookup
    {
      StrictOrder(comparator) && Indexed(stateOf, costOf, heapList, lookup.table)
    }

    constructor (stateOf: N -> St, costOf: N -> int, comparator: (N, N) -> bool)
      requires StrictOrder(comparator)
      ensures Valid() && fresh(lookup)
      ensures heapList == [] && lookup.table == map[] && lookup.name == "STATE_HEAP"
      ensures this.stateOf == stateOf && this.costOf == costOf && this.comparator == comparator
    {
      lookup := new HashableDictionary("STATE_HEAP");
      heapList := [];
      this.stateOf := stateOf;
      this.costOf := costOf;
      this.comparator := comparator;
    }

    /** A node for a new state is added and its cost recorded; a node for a
        queued state replaces that state's node only when strictly cheaper;
        otherwise nothing changes. */
    method Enqueue(item: N)
      requires Valid()
      modifies this, lookup
      ensures Valid()
      ensures var st := stateOf(item);
        if st !in old(lookup.table) then
          && lookup.table == old(lookup.table)[st := costOf(item)]
          && heapList == old(heapList) + [item]
        else if costOf(item) < old(lookup.table)[st] then
          && lookup.table == old(lookup.table)[st := costOf(item)]
          && exists i :: 0 <= i < |old(heapList)| && stateOf(old(heapList)[i]) == st
                         && heapList == old(heapList)[i := item]
        else
          lookup.table == old(lookup.table) && heapList == old(heapList)
    {
      var st := stateOf(item);
      var seen := lookup.Contains(st);
      if seen {
        var recorded := lookup.Get(st);
        if costOf(item) < recorded {
          var i := IndexOfState(st);
          IndexedReplace(stateOf, costOf, heapList, lookup.table, i, item);
          lookup.SetItem(st, costOf(item));
          heapList := heapList[i := item];
        }
      } else {
        IndexedAppend(stateOf, costOf, heapList, lookup.table, item);
        lookup.SetItem(st, costOf(item));
        heapList := heapList + [item];
      }
    }

    /** The scan for the node of a queued state: the first position whose
        node has state st. */
    method IndexOfState(st: St) returns (i: int)
      requires exists j :: 0 <= j < |heapList| && stateOf(heapList[j]) == st
      ensures 0 <= i < |heapList| && stateOf(heapList[i]) == st
      ensures forall k :: 0 <= k < i ==> stateOf(heapList[k]) != st
    {
      i := 0;
      while stateOf(heapList[i]) != st
        invariant 0 <= i < |heapList|
        invariant exists j :: i <= j < |heapList| && stateOf(heapList[j]) == st
        invariant forall k :: 0 <= k < i ==> stateOf(heapList[k]) != st
        decreases |heapList| - i
      {
        i := i + 1;
      }
    }

    /** Removes and returns a node that no queued node is less than, and
        drops its state from lookup. */
    method Dequeue() returns (item: N)
      requires Valid() && heapList != []
      modifies this, lookup
      ensures Valid()
      ensures item in old(heapList)
      ensures forall x :: x in old(heapList) ==> !comparator(x, item)
      ensures multiset(heapList) + multiset{item} == multiset(old(heapList))
      ensures lookup.table == old(lookup.table) - {stateOf(item)}
    {
      MinimalExists(comparator, heapList);
      var i :| 0 <= i < |heapList| && IsMinimalAt(comparator, heapList, i);
      item := heapList[i];
      IndexedRemove(stateOf, costOf, heapList, lookup.table, i);
      heapList := heapList[..i] + heapList[i + 1..];
      assert stateOf(item) in lookup.table;
      lookup.Pop(stateOf(item));
    }

    /** isEmpty(): also checks that heapList and lookup have the same size. */
    method IsEmpty() returns (b: bool)
      requires Valid()
      ensures b <==> heapList == []
      ensures b <==> lookup.table == map[]
    {
      DistinctStatesCount(stateOf, heapList);
      assert |heapList| == |lookup.table|;
      b := |heapList| == 0;
    }

    /** len(heap): the number of queued nodes, which is also the number of
        states in lookup. */
    method Len() returns (n: nat)
      requires Valid()
      ensures n == |heapList| && n == |lookup.table|
    {
      DistinctStatesCount(stateOf, heapList);
      assert |heapList| == |lookup.table|;
      n := |heapList|;
    }
  }
}
