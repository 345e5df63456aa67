# Adversarial search, search containers and delivery planning in Dafny

This project models three parts of a pair of search assignments:

- **The game-playing engine** (`A2/src/gamePlay.py`). It is a depth-limited minimax evaluator and a fail-soft alpha-beta evaluator. Each one:
  - counts the nodes it visits and the transposition-table hits;
  - optionally consults a transposition table keyed by the board's encoding. An entry answers a query only when it was searched at least as deep as requested.

  The game itself (successor generation, terminal utility, heuristic evaluation, encoding) is a record of functions, `GameSpec.Game`. Module `GameSpec` states both evaluators as pure functions that return the value and the number of nodes visited. Module `GamePlay` is the imperative engine:
  - a `Search` object holds the table and the two counters;
  - the recursive methods `DoMinimax` and `DoAlphaBeta` update them in place;
  - the child loops carry `v`, `alpha`, `beta` and `break` exactly as the source does.

  The engine is proved against the pure functions. The main facts are proved about those functions:
  - alpha-beta from the full window returns the minimax value;
  - alpha-beta is fail-soft;
  - alpha-beta visits no more nodes than minimax.

  Module `GameExamples` works out two small trees.
- **The search containers** (`A1/src/dataStructures.py`), in module `DataStructures`:
  - a named dictionary;
  - a LIFO stack and a FIFO queue with element counters;
  - a priority queue of search nodes, paired with a lookup table of the cost recorded for each queued state.

  Each container is a class whose methods change its fields. Each method states the new contents.
- **The delivery problem** (`A1/src/problem.py`), in module `Delivery`. Vehicles with a capacity pick up packages and deliver them in a space of some dimension. Class `Problem` builds the initial state and computes successors with nested loops. It recognises goal states by a scan with an early exit. The successors are proved equal to a specification function `Moves`. `Moves` yields exactly the moves allowed by the independent predicate `Enabled`. Every move keeps the state invariant, which includes every vehicle's room lying in [0, k].

## Model

| member | source | states |
|---|---|---|
| GameSpec.MinimaxOutcome | A2/src/gamePlay.py:26-71 | The minimax value of a position and the nodes it takes, without the cache. Every call counts at least its own node. |
| GameSpec.MinimaxMax | A2/src/gamePlay.py:55-60 | A MAX node's child loop folds the children's values into the seed with max. The result is at least the seed, and every child is searched, so it takes at least one node per child. |
| GameSpec.MinimaxMin | A2/src/gamePlay.py:61-66 | A MIN node's child loop folds with min. The result is at most the seed, and it takes at least one node per child. |
| GameSpec.AlphaBetaOutcome | A2/src/gamePlay.py:93-145 | The fail-soft alpha-beta value of a position for a window and the nodes it takes, without the cache. Every call counts at least its own node. |
| GameSpec.AlphaBetaMax | A2/src/gamePlay.py:122-130 | A MAX node's child loop raises v and alpha, and stops at the first child after which beta ≤ alpha. The result is at least v, and a non-empty loop takes at least one node. |
| GameSpec.AlphaBetaMin | A2/src/gamePlay.py:131-139 | A MIN node's child loop lowers v and beta, and stops at the first child after which beta ≤ alpha. The result is at most v, and a non-empty loop takes at least one node. |
| GameSpec.LeafCases | A2/src/gamePlay.py:45-54 | Both evaluators agree on the three leaf cases, and each visits exactly one node in them. A terminal utility is returned as is. A non-terminal node at depth ≤ 0 returns its evaluation. A non-terminal node at positive depth without successors returns DRAW, whoever is to move. |
| GameSpec.MinimaxMaxIsMaximum | A2/src/gamePlay.py:55-60 | A MAX node's loop returns a value at least its seed and at least every child's minimax value (children searched with MIN to move), and equal to the seed or to one of those values. |
| GameSpec.MinimaxMinIsMinimum | A2/src/gamePlay.py:61-66 | A MIN node's loop returns a value at most its seed and at most every child's minimax value (children searched with MAX to move), and equal to the seed or to one of those values. |
| GameSpec.MinimaxBounded | A2/src/gamePlay.py:45-66 | With utilities and evaluations inside [NEGINF, INF], every minimax value lies inside [NEGINF, INF]. |
| GameSpec.MinimaxMaxSeed | A2/src/gamePlay.py:56-59 | Folding with max from seed max(x, y) gives max(x, result from y). The nodes visited do not depend on the seed. |
| GameSpec.MinimaxMinSeed | A2/src/gamePlay.py:62-65 | Folding with min from seed min(x, y) gives min(x, result from y). The nodes visited do not depend on the seed. |
| GameSpec.AlphaBetaFailSoft | A2/src/gamePlay.py:93-145 | For a window NEGINF ≤ α < β ≤ INF, take r = alpha-beta and m = minimax. If r ≤ α then m ≤ r. If r ≥ β then m ≥ r. Otherwise r = m. |
| GameSpec.AlphaBetaMaxFailSoft | A2/src/gamePlay.py:122-130 | The MAX loop taken from any point with v ≤ α < β returns at least v. It is fail-soft against the max over the remaining children. |
| GameSpec.AlphaBetaMinFailSoft | A2/src/gamePlay.py:131-139 | The MIN loop taken from any point with α < β ≤ v returns at most v. It is fail-soft against the min over the remaining children. |
| GameSpec.AlphaBetaEqualsMinimax | A2/src/gamePlay.py:147-149 | Started from (NEGINF, INF), alpha-beta returns the minimax value, for an evaluator that keeps to the sentinel bounds. |
| GameSpec.AlphaBetaVisitsNoMore | A2/src/gamePlay.py:93-145 | For any window, alpha-beta visits at most as many nodes as minimax on the same position. |
| GameSpec.AlphaBetaMaxVisitsNoMore | A2/src/gamePlay.py:123-130 | The MAX loop, with its beta cut-off, spends no more nodes than minimax's loop over all of the same children. |
| GameSpec.AlphaBetaMinVisitsNoMore | A2/src/gamePlay.py:132-139 | The MIN loop, with its alpha cut-off, spends no more nodes than minimax's loop over all of the same children. |
| GameExamples.OnePlyNoPruning | A2/src/gamePlay.py:55-60 | Take a MAX root whose three leaf children score 3, 7 and 2, searched one ply deep. Both evaluators return 7 and visit 4 nodes. |
| GameExamples.WinPrunesLaterSiblings | A2/src/gamePlay.py:122-130 | Take a MAX node whose second child is a win (INF). Both evaluators return INF. Alpha-beta stops after the win and visits 3 nodes against minimax's 4. |
| GamePlay.DeepensWrite | A2/src/gamePlay.py:68-70 | Suppose the table missed the key at entry and has since received only shallower writes. Then storing (ret, depth) keeps every key and replaces an entry only by a strictly deeper one. The table grows by at most one entry. |
| GamePlay.Search.constructor | A2/src/gamePlay.py:21-23 | A top-level search starts with an empty table and both counters at 0. |
| GamePlay.Search.DoMinimax | A2/src/gamePlay.py:26-71 | Every call counts at least one node; hits never outnumber nodes. Without the cache, the result and node count are those of the minimax function, and the table and hits stay unchanged. With the cache, the table afterwards serves the position at this depth with the result. The table only deepens, and it grows by at most the number of non-hit calls. A call the table can serve returns the stored value, leaves the table unchanged, and counts exactly one node and one hit. A call the table cannot serve is not a hit and is searched. A terminal position returns its utility, a depth cut-off its evaluation and a position without successors DRAW. Each of these leaf misses counts exactly one node and no hit, and writes only its own entry (ret, depth). Otherwise every child is searched (at least 1 + the number of children nodes). |
| GamePlay.Search.MinimaxMaxLoop | A2/src/gamePlay.py:55-60 | Without the cache, the loop's value and node count are those of the MAX fold from NEGINF. With the cache, the table only deepens. Every child is searched, so the loop counts at least one node per child. |
| GamePlay.Search.MinimaxMinLoop | A2/src/gamePlay.py:61-66 | Without the cache, the loop's value and node count are those of the MIN fold from INF. With the cache, the table only deepens. Every child is searched, so the loop counts at least one node per child. |
| GamePlay.Search.DoAlphaBeta | A2/src/gamePlay.py:93-145 | The same statistics and cache facts as DoMinimax, including the hit and leaf-miss cases (exact value, one node, no hit, only its own entry written). A miss at an internal node searches at least its first child (at least 2 nodes). Without the cache, the result and node count are those of the alpha-beta function for the window (α, β). |
| GamePlay.Search.AlphaBetaMaxLoop | A2/src/gamePlay.py:122-130 | Without the cache, v and the node count are those of the MAX loop with its beta cut-off. With the cache, the table only deepens. A non-empty loop searches at least its first child. |
| GamePlay.Search.AlphaBetaMinLoop | A2/src/gamePlay.py:131-139 | Without the cache, v and the node count are those of the MIN loop with its alpha cut-off. With the cache, the table only deepens. A non-empty loop searches at least its first child. |
| GamePlay.Minimax | A2/src/gamePlay.py:12-76 | Without the cache, the value and nodes are the minimax ones, and the table size and hits are 0. With the cache, 1 ≤ table size ≤ nodes − hits, and hits < nodes. |
| GamePlay.AlphaBeta | A2/src/gamePlay.py:78-151 | Without the cache, the value and nodes are those of alpha-beta from (NEGINF, INF), and the nodes are at most minimax's. The value equals minimax's when the evaluator keeps to the sentinels, and the table size and hits are 0. With the cache, the same size and hit bounds as Minimax hold. |
| DataStructures.HashableDictionary.constructor | A1/src/dataStructures.py:22-24 | A new dictionary has the given name and no entries. |
| DataStructures.HashableDictionary.Get | A1/src/dataStructures.py:30-31 | Returns the entry stored for the key. |
| DataStructures.HashableDictionary.Contains | A1/src/dataStructures.py:33-34 | True exactly when the key has an entry. |
| DataStructures.HashableDictionary.SetItem | A1/src/dataStructures.py:36-37 | Afterwards the key holds the item, and every other key's presence and entry are unchanged. |
| DataStructures.HashableDictionary.Len | A1/src/dataStructures.py:39-40 | The number of entries. |
| DataStructures.HashableDictionary.Pop | A1/src/dataStructures.py:51-52 | Removes exactly the key's entry, so the size drops by one. |
| DataStructures.HashableDictionary.Clone | A1/src/dataStructures.py:42-46 | Returns a freshly allocated dictionary with the same name and the same entries. |
| DataStructures.CloneIsIndependent | A1/src/dataStructures.py:42-46 | Writing into a clone leaves the original's entries unchanged, and the clone is a different object. |
| DataStructures.StateStack.constructor | A1/src/dataStructures.py:61-65 | A new stack is empty with counter 0. |
| DataStructures.StateStack.Push | A1/src/dataStructures.py:67-73 | Appends the state on top, and the counter keeps equal to the length. |
| DataStructures.StateStack.Pop | A1/src/dataStructures.py:75-80 | Returns the most recently pushed state still on the stack and removes it, and the counter keeps equal to the length. |
| DataStructures.StateStack.GetNumEl | A1/src/dataStructures.py:82-87 | The counter equals the number of stacked states. |
| DataStructures.StateStack.IsEmpty | A1/src/dataStructures.py:89-94 | True exactly when no state is on the stack. |
| DataStructures.StateQueue.constructor | A1/src/dataStructures.py:104-108 | A new queue is empty, with nothing enqueued yet. |
| DataStructures.StateQueue.Dequeue | A1/src/dataStructures.py:110-116 | Returns the oldest state not yet dequeued, which is the taken-th state ever enqueued. The counter keeps equal to enqueues minus dequeues. |
| DataStructures.StateQueue.Enqueue | A1/src/dataStructures.py:118-125 | Adds the state at the back and records it in the history, and the counter keeps equal to enqueues minus dequeues. |
| DataStructures.StateQueue.IsEmpty | A1/src/dataStructures.py:127-132 | True exactly when the queue holds nothing, which is also exactly when the counter is 0. |
| DataStructures.StateQueue.GetNumEl | A1/src/dataStructures.py:134-139 | The counter equals the number of queued states. |
| DataStructures.MinimalExists | A1/src/dataStructures.py:203-207 | Under a strict weak order, every non-empty sequence of nodes has an element that no element is less than. |
| DataStructures.DistinctStatesCount | A1/src/dataStructures.py:217-222 | With one node per state, there are as many distinct states as nodes. This is why the heap's length and the lookup's length agree. |
| DataStructures.IndexedAppend | A1/src/dataStructures.py:199-201 | Adding a node for an unseen state with its cost keeps one node per state, with lookup holding exactly the queued states and their costs. |
| DataStructures.IndexedReplace | A1/src/dataStructures.py:182-190 | Replacing a state's node by a cheaper node for the same state, and recording the new cost, keeps that pairing. |
| DataStructures.IndexedRemove | A1/src/dataStructures.py:207-209 | Removing a node and its state's lookup entry keeps that pairing. The removed node plus the rest is the old multiset. |
| DataStructures.StateHeap.constructor | A1/src/dataStructures.py:168-175 | A new heap is empty, with an empty lookup named STATE_HEAP. |
| DataStructures.StateHeap.Enqueue | A1/src/dataStructures.py:177-201 | For an unseen state, the node is added and its cost recorded. For a queued state with a strictly lower cost, the cost is updated and that state's node is replaced. Otherwise nothing changes. The pairing invariant (one node per state, with lookup holding exactly the queued states and their costs) is kept in every case. |
| DataStructures.StateHeap.IndexOfState | A1/src/dataStructures.py:186-190 | The scan stops at the first position whose node is for the given state. |
| DataStructures.StateHeap.Dequeue | A1/src/dataStructures.py:203-210 | Returns a queued node that no queued node is less than. The remaining nodes plus it are the old ones, and its state is dropped from lookup. |
| DataStructures.StateHeap.IsEmpty | A1/src/dataStructures.py:212-218 | True exactly when nothing is queued, which is also exactly when lookup is empty. |
| DataStructures.StateHeap.Len | A1/src/dataStructures.py:220-222 | The number of queued nodes, which equals the number of lookup entries. |
| Delivery.NewVehicles | A1/src/problem.py:43-44 | The table holds vehicles 0..m−1, each at the origin with room k. |
| Delivery.NewPackages | A1/src/problem.py:45-46 | The table holds packages 0..len(packs)−1. Package j has the j-th source and destination and no carrier. |
| Delivery.Problem.InitialState | A1/src/problem.py:37-47 | The initial state: vehicles 0..m−1 at the origin with room k, and package j with the j-th source and destination and no carrier. Its properties are stated by InitialStateValid and InitialStateGoal. |
| Delivery.Problem.Enabled | A1/src/problem.py:92-160 | When each move is allowed, on its own. A delivery needs the package to be carried by the vehicle. A pick-up needs room > 0 and no carrier. A return needs room k and a vehicle away from the origin. It is the reference that MovesAreEnabled relates the listed moves to. |
| Delivery.Problem.PairMove | A1/src/problem.py:92-146 | The move vehicle kv makes with package kp, in the order the branches are tried: at most one move. Every listed move is an enabled delivery or pick-up of that pair, and an enabled delivery or pick-up of that pair is listed. |
| Delivery.Problem.ReturnMove | A1/src/problem.py:148-160 | The vehicle's return to the origin is listed exactly when it is enabled. |
| Delivery.Problem.PackageMoves | A1/src/problem.py:90-146 | Vehicle kv's delivery and pick-up moves for the package keys below the bound, in key order. PackageMovesSound and PackageMovesComplete show these are exactly its enabled delivery and pick-up moves. |
| Delivery.Problem.VehicleMoves | A1/src/problem.py:89-160 | The moves of the vehicles with keys below i, in key order: each vehicle's package moves, then its return. VehicleMovesSound and VehicleMovesComplete show these are exactly their enabled moves. |
| Delivery.Problem.Moves | A1/src/problem.py:82-161 | All moves, vehicle by vehicle in key order: each vehicle's package moves in key order, then its return. MovesAreEnabled shows these are exactly the enabled moves. |
| Delivery.Problem.Goal | A1/src/problem.py:163-175 | A goal state has every vehicle at the origin and no package left. NoMovesIffGoal and IsGoal relate it to the successors and to the scan. |
| Delivery.Problem.constructor | A1/src/problem.py:29-47 | Stores m, n, k and y, and builds the initial state from them and the package list. |
| Delivery.Problem.InitialStateValid | A1/src/problem.py:37-47 | With k ≥ 0 and at most n packages, the initial state satisfies the invariant. |
| Delivery.Problem.InitialStateGoal | A1/src/problem.py:37-47 | The initial state is a goal exactly when there are no packages. |
| Delivery.Problem.Apply | A1/src/problem.py:100-160 | A move writes only the moved vehicle's entry, and a return leaves the packages as they were. |
| Delivery.Problem.ApplyEffect | A1/src/problem.py:100-160 | From a valid state, an enabled move works as follows. A delivery moves the vehicle to the package's destination with one more room and removes the package. A pick-up moves the vehicle to the package with one less room and makes it the package's carrier. A return puts the vehicle at the origin. Exactly that vehicle's entry changes and at most that package's entry. The package count drops by one on a delivery and is otherwise unchanged. |
| Delivery.Problem.ApplyKeepsValid | A1/src/problem.py:107-109 | Every enabled move from a valid state leads to a valid state, and the moved vehicle's room lies in [0, k] (the asserted capacity bound). |
| Delivery.Problem.PackageMovesSound | A1/src/problem.py:90-146 | Each package move listed for a vehicle is an enabled delivery or pick-up by that vehicle of a package below the bound. |
| Delivery.Problem.PackageMovesComplete | A1/src/problem.py:90-146 | Each enabled delivery or pick-up by the vehicle of a package below the bound is listed. |
| Delivery.Problem.VehicleMovesSound | A1/src/problem.py:89-160 | Each listed move of the first i vehicles is enabled and belongs to one of them. |
| Delivery.Problem.VehicleMovesComplete | A1/src/problem.py:89-160 | Each enabled move of one of the first i vehicles, with a package below n, is listed. |
| Delivery.Problem.MovesAreEnabled | A1/src/problem.py:82-161 | In a valid state, a move is listed exactly when it is enabled. A delivery needs the package to be carried by the vehicle. A pick-up needs room > 0 and no carrier. A return needs room k and a vehicle away from the origin. |
| Delivery.Problem.PairSuccessor | A1/src/problem.py:92-146 | The body of the inner loop: the successor the vehicle reaches with the package, if any, together with its move. |
| Delivery.Problem.ReturnSuccessor | A1/src/problem.py:148-160 | The return-to-origin successor, if the vehicle has one. |
| Delivery.Problem.VehicleSuccessors | A1/src/problem.py:89-160 | One vehicle's successors: its package moves in key order, then its return. |
| Delivery.Problem.Successors | A1/src/problem.py:82-161 | From a valid state, the successors are exactly the listed moves, in vehicle-then-package order, each paired with the state it leads to. Every successor is valid. |
| Delivery.Problem.NoMovesIffGoal | A1/src/problem.py:82-175 | With k > 0 and m > 0, a valid state has no successor exactly when it is a goal. |
| Delivery.Problem.EnabledMove | A1/src/problem.py:82-161 | A valid non-goal state, with k > 0 and m > 0, has an enabled move. |
| Delivery.Problem.CarriedDelivery | A1/src/problem.py:100-118 | A vehicle with less than k room carries a package it can deliver. |
| Delivery.Problem.IsGoal | A1/src/problem.py:163-175 | True exactly when every vehicle is at the origin and no package is left. |

## Left out

- The values of the sentinel constants. `constants.py` is not part of this model. INF = 1000000, NEGINF = −INF and DRAW = 0 are chosen. The general lemmas use only NEGINF < DRAW < INF. The worked examples in GameExamples also need their heuristic scores (2 to 7) to lie strictly between NEGINF and INF.
- The Board and Evaluate classes are not part of this model. Move generation, utility, evaluation and the encoding are abstract functions in `GameSpec.Game`. The encoding is assumed deterministic, and two states with the same encoding share a table entry, as in the source.
- The HashTable class (`hashTable.py`) is not part of this model. The transposition table is the field `GamePlay.Search.table`, a `map` from encodings to entries. This assumes HashTable is an unbounded exact map: it never evicts or replaces an entry on its own, a lookup returns the last entry written under the key, and `len` counts the distinct keys stored. `Deepens` (no key is ever dropped) and the table-size bounds of `Minimax` and `AlphaBeta` rest on this assumption.
- The cache flag is a parameter fixed for a whole search. The source reads it from the command line.
- Values with the cache on. With the cache on, alpha-beta stores pruned bounds as if they were exact, and both evaluators reuse entries computed at a greater depth and a different ply. The cached value is then not the minimax value in general, so the model states the statistics and depth-dominance facts, the value of a hit, and the value of a miss at a leaf (utility, evaluation or DRAW, never a stale entry). At an internal node the value of a miss is not pinned down, because it is folded from children's values that may themselves come from the table. Caching is meant never to change a result, but in the code it can, and the model follows the code.
- GamePlay.Search.DoMinimax: with the cache on, a miss at an internal node has its node count bounded only from below (it searches every child, so it counts at least 1 + the number of children) and relative to hits and table growth, and its effect on the table only by `Deepens`. Hits, misses at a leaf and calls without the cache are stated exactly. It is not equated to a function, and the value of a miss at an internal node is not equated to one either. A cached search has no pure counterpart in the model.
- GamePlay.Search.DoAlphaBeta: the same as for DoMinimax, except that a miss at an internal node is only bounded by 2 nodes (the node and its first child), because the loop may cut off after any child.
- The game controller (`gameController.py`): a printing game loop over the external Board.
- HashableDictionary is a map keyed by the key itself. This assumes Python's `hash` is injective and idempotent on the stored keys, which `clone` also relies on. `__hash__` and `items` are not modelled.
- Python's KeyError and IndexError, and the blocking of `Queue.get` on an empty queue, become preconditions. These are Get/Pop on a missing key, popping an empty stack, dequeuing an empty queue, and dequeuing an empty heap (`heappop` raising IndexError). The search drivers that call these containers are not part of this model, so the model assumes that they never make such a call, rather than recover from one.
- The thread safety of `queue.Queue` is not modelled: the queue is a plain sequence.
- DataStructures.StateHeap.constructor: the comparator is assumed to be a strict weak order (irreflexive, transitive, with transitive incomparability), which is what heapq needs for its root to be a minimal node. Comparators that are only partial orders are not modelled.
- DataStructures.StateHeap.Dequeue: returns some node that no queued node is less than. It does not fix which one heapq's array layout would pick among equally good nodes, because that layout (and `heapify`) is not modelled.
- DataStructures.StateHeap.Enqueue: the matching node is found by comparing states. `SearchNode` is not part of this model, and its equality is taken to compare states.
- The diagnostic seen-count printing to stderr in `enqueue` is not modelled.
- The unused `equality` argument of the heap is not modelled.
- `Problem.readProblem` parses floats from standard input and is not modelled. Positions are integer sequences, and they are only ever compared for equality.
- `__str__`, `getValues` and `getInitState` are not modelled, and the plan-step strings are modelled as `Move` values.
- Delivery.Problem.Successors: requires the state invariant, because the source's capacity asserts can fail without it. Python iterates over dictionaries in insertion order. For every state built from the initial state that order is ascending key order, because entries are only overwritten or removed, never added under a new key. The model visits vehicle keys 0..m−1 and package keys 0..n−1 in that order.
