# Aurora-J core, modelled in Dafny

Aurora-J is a real-time space strategy game written in Java and Kotlin. This
project models the sequential, integer- and map-based logic underneath it and
proves properties of that model:

- the GOAP (goal-oriented action planning) engine: the key/value world state
  `ReGoapState`, the 1-based binary min-heap `FastPriorityQueue`, the A* node
  `ReGoapNode`, the search loop `AStar` and the goal picker `ReGoapPlanner`;
- the integer quadtrees: the record list `IntList`, the point quadtree
  `QuadtreePoint` and the rectangle quadtree `QuadtreeAABBStatic`;
- inventory and damage bookkeeping: cargo holds, health components and the
  integer damage pipeline of the weapon system;
- shipyards and entity groups; timed values, interval systems and the star
  system's tick split; ship hulls, research, power, commands, entity ids and
  the player's speed steps;
- the value types `RectangleL` and `Vector2L`, the `Units` formatters, typed
  `Setting`s and the last-line tracker `OutputStreamListener`.

Java `int`/`long` arithmetic is modelled on unbounded integers; where the
source truncates, wraps or divides toward zero this is written out
(`java_math.dfy`). Java exceptions are modelled as an error result
(`wrappers.dfy`), never as a precondition. Mutable Java objects are Dafny
classes whose methods state their whole new state; pure computations are
functions with lemmas about them.

## Model

| member | source | states |
|---|---|---|
| GoapState.Missing | core/src/se/exuvo/aurora/goap/interfaces/ReGoapState.java:116-121 | the missing difference is a sub-map of self: only self's keys, with self's values |
| GoapState.BoundedCount | core/src/se/exuvo/aurora/goap/interfaces/ReGoapState.java:112-124 | a count that stops at stopAt never exceeds the total or a positive stopAt, is 0 exactly when nothing is missing, and falls short of the total only by stopping at stopAt |
| GoapState.NoMissingMeansSatisfied | core/src/se/exuvo/aurora/goap/interfaces/ReGoapState.java:112-124 | a missing count of 0 holds exactly when other agrees with every pair of self |
| GoapState.MergeSatisfies | core/src/se/exuvo/aurora/goap/interfaces/ReGoapState.java:48-55 | after merging b into a, b is satisfied and nothing of b is missing; keys only in a keep a's value |
| GoapState.MissingPartition | core/src/se/exuvo/aurora/goap/interfaces/ReGoapState.java:112-124 | every pair of self is either missing or matched in other, and taking the missing difference twice changes nothing |
| GoapState.TallyStep | core/src/se/exuvo/aurora/goap/interfaces/ReGoapState.java:145-152 | one iteration of the counting loop: a mismatching pair is counted and written, a matching one is skipped |
| GoapState.WrittenFinish | core/src/se/exuvo/aurora/goap/interfaces/ReGoapState.java:145-153 | the pairs written into the difference are exactly count missing pairs of self |
| GoapState.TallyMissing | core/src/se/exuvo/aurora/goap/interfaces/ReGoapState.java:141-156 | the counting loop over self's entries (in an unspecified hash order) returns the bounded missing count and writes that many missing pairs |
| GoapState.State.Instantiate | core/src/se/exuvo/aurora/goap/interfaces/ReGoapState.java:24-34 | instantiate(old) yields exactly old's pairs, instantiate(null) an empty state |
| GoapState.State.FromMap | core/src/se/exuvo/aurora/goap/interfaces/ReGoapState.java:18-22 | a new state holds exactly the given pairs in bufferA |
| GoapState.State.Clone | core/src/se/exuvo/aurora/goap/interfaces/ReGoapState.java:191-193 | a fresh state with the same pairs |
| GoapState.State.Add | core/src/se/exuvo/aurora/goap/interfaces/ReGoapState.java:36-46 | a fresh state holding a's pairs overridden by b's |
| GoapState.State.Set | core/src/se/exuvo/aurora/goap/interfaces/ReGoapState.java:225-229 | the key now maps to the value; the spare buffer is untouched |
| GoapState.State.AddFromState | core/src/se/exuvo/aurora/goap/interfaces/ReGoapState.java:48-55 | every key of b maps to b's value and every other key keeps its value |
| GoapState.State.PutAll | core/src/se/exuvo/aurora/goap/interfaces/ReGoapState.java:51-52 | the put loop leaves the live map as the old map overridden by the source |
| GoapState.State.GetSize | core/src/se/exuvo/aurora/goap/interfaces/ReGoapState.java:57-59 | the number of keys of the live map |
| GoapState.State.HasAny | core/src/se/exuvo/aurora/goap/interfaces/ReGoapState.java:61-71 | true exactly when some pair of other is also a pair of this state |
| GoapState.State.HasAnyConflict | core/src/se/exuvo/aurora/goap/interfaces/ReGoapState.java:73-88 | true exactly when a key present in both maps has different values; keys absent here are ignored |
| GoapState.State.HasAnyConflictUnlessChanged | core/src/se/exuvo/aurora/goap/interfaces/ReGoapState.java:90-106 | as HasAnyConflict, except that a mismatch is excused where changes maps the key to this state's value |
| GoapState.State.MissingDifferenceBounded | core/src/se/exuvo/aurora/goap/interfaces/ReGoapState.java:112-126 | returns the number of self pairs other lacks, stopped at stopAt |
| GoapState.State.MissingDifference | core/src/se/exuvo/aurora/goap/interfaces/ReGoapState.java:108-110 | returns the full missing count (capped at Integer.MAX_VALUE), and 0 exactly when other satisfies self |
| GoapState.State.MissingDifferenceIgnoring | core/src/se/exuvo/aurora/goap/interfaces/ReGoapState.java:128-130 | the overload with a difference argument returns the full count and writes nothing into difference |
| GoapState.State.MissingDifferenceInto | core/src/se/exuvo/aurora/goap/interfaces/ReGoapState.java:132-156 | returns the bounded count and, when difference is given, puts exactly that many missing pairs into it |
| GoapState.State.ReplaceWithMissingDifference | core/src/se/exuvo/aurora/goap/interfaces/ReGoapState.java:162-189 | switches to the other buffer, keeps only missing pairs (up to stopAt) and returns their count, which is the new size |
| GoapState.State.ReplaceWithAllMissing | core/src/se/exuvo/aurora/goap/interfaces/ReGoapState.java:158-160 | the unbounded form keeps exactly the missing pairs |
| GoapState.State.Get | core/src/se/exuvo/aurora/goap/interfaces/ReGoapState.java:219-223 | the value for a present key, none for an absent one |
| GoapState.State.HasKey | core/src/se/exuvo/aurora/goap/interfaces/ReGoapState.java:243-247 | true exactly when get finds a value |
| GoapState.State.Remove | core/src/se/exuvo/aurora/goap/interfaces/ReGoapState.java:231-235 | the key is gone and every other pair stays |
| GoapState.State.Clear | core/src/se/exuvo/aurora/goap/interfaces/ReGoapState.java:249-253 | the live map is empty |
| GoapState.IgnoredDifferenceExample | core/src/se/exuvo/aurora/goap/interfaces/ReGoapState.java:128-130 | for self {a: 1} and an empty other, the overload leaves difference empty where the five-argument form writes {a: 1} |
| GoapNode.AdmittedSettingsExact | core/src/se/exuvo/aurora/ai/goap/planner/ReGoapNode.java:143-157 | for one action, exactly the settings passing the four admission tests give a child, in list order |
| GoapNode.AdmittedFromOrdered | core/src/se/exuvo/aurora/ai/goap/planner/ReGoapNode.java:139-158 | actions are tried from the last to the first: admitted pairs come in non-increasing action index |
| GoapNode.AdmittedFromSplit | core/src/se/exuvo/aurora/ai/goap/planner/ReGoapNode.java:139-158 | the pairs of the actions before action i follow action i's own pairs |
| GoapNode.Node.Instantiate | core/src/se/exuvo/aurora/ai/goap/planner/ReGoapNode.java:45-98 | init: the state is a clone of the parent's state (the world's for a root) and g the parent's g; with an action the state gets the effects, g the action cost, and the fresh goal is newGoal without the pairs the effects satisfy plus the preconditions; without one the goal is newGoal itself; h is the goal size and cost = g + h * heuristicMultiplier. goalMergedWithWorld is empty exactly when the world satisfies the goal (the missing pairs, when they fit) with the intended missingDifference, and always empty as written |
| GoapNode.Node.Expand | core/src/se/exuvo/aurora/ai/goap/planner/ReGoapNode.java:127-160 | returns fresh children, one per admitted (action, settings) pair, actions from last to first, recorded as expandList; each child is linked to this node, carries its action and settings, has this node's state with the effects merged in, g this g plus the action cost, h the size of its goal and cost g + h; its goal is the pairs of this node's goal the effects do not satisfy plus the preconditions (GoalMade), and in the corrected build goalMergedWithWorld is empty exactly when the world satisfies that goal (Merged) |
| GoapNode.Node.MakeChildren | core/src/se/exuvo/aurora/ai/goap/planner/ReGoapNode.java:139-158 | the loop over the actions, from the last to the first, makes exactly one fresh child per admitted pair, each as ChildOf says: the child state, cost and goal the action makes from this node |
| GoapNode.Node.ExpandStep | core/src/se/exuvo/aurora/ai/goap/planner/ReGoapNode.java:140-157 | one pass of the action loop keeps the invariant: the children made so far are ChildOf this node for the pairs admitted so far, and the rest are still to come |
| GoapNode.Node.ExpandAction | core/src/se/exuvo/aurora/ai/goap/planner/ReGoapNode.java:140-157 | the children for one action's settings list, in list order, each ChildOf this node for its pair (state, cost and the goal the action leaves); the shared stack data ends with the last settings tried |
| GoapNode.Node.ExpandSetting | core/src/se/exuvo/aurora/ai/goap/planner/ReGoapNode.java:145-156 | one turn of the settings loop: the j-th settings add one fresh child, ChildOf this node, exactly when the pair is admitted, and the children already made are kept |
| GoapNode.Node.TryCandidate | core/src/se/exuvo/aurora/ai/goap/planner/ReGoapNode.java:146-156 | one child, ChildOf this node (state with the effects, g plus the action cost, the goal the action leaves), when the action with these settings passes the admission tests; none otherwise |
| GoapNode.Node.MakeChild | core/src/se/exuvo/aurora/ai/goap/planner/ReGoapNode.java:154-155 | a fresh child instantiated with this node as parent and this node's goal as newGoal: its state is this state plus the effects, its g this g plus the action cost, its goal this goal without the pairs the effects satisfy plus the preconditions, and in the corrected build it is a goal node exactly when the world satisfies that goal |
| GoapNode.Node.CalculatePath | core/src/se/exuvo/aurora/ai/goap/planner/ReGoapNode.java:162-176 | one step per ancestor, from this node up to but not including the root, each the node's action and settings |
| GoapNode.Node.CompareTo | core/src/se/exuvo/aurora/ai/goap/planner/ReGoapNode.java:178-180 | -1, 0 or 1 exactly as the cost is below, equal to or above the other node's |
| GoapNode.Node.IsGoal | core/src/se/exuvo/aurora/ai/goap/planner/ReGoapNode.java:190-192 | true exactly when the goal merged with the world is empty, whatever the argument |
| GoapNode.Node.Name | core/src/se/exuvo/aurora/ai/goap/planner/ReGoapNode.java:194-196 | the action's name, or "NoAction" |
| GoapNode.Node.GetEffects | core/src/se/exuvo/aurora/ai/goap/planner/ReGoapNode.java:202-204 | returns the node's goal |
| GoapNode.Node.GetPreconditions | core/src/se/exuvo/aurora/ai/goap/planner/ReGoapNode.java:206-208 | returns the node's goal |
| GoapNode.Node.Recycle | core/src/se/exuvo/aurora/ai/goap/planner/ReGoapNode.java:102-108 | state and goal are released and the node is no longer live |
| GoapNode.ChildrenConcat | core/src/se/exuvo/aurora/ai/goap/planner/ReGoapNode.java:139-158 | the children of two runs of admitted pairs, joined, are the children of the joined pairs |
| GoapNode.ChildrenRebase | core/src/se/exuvo/aurora/ai/goap/planner/ReGoapNode.java:145-147 | a child does not depend on the settings the shared stack carried before it |
| GoapNode.AdmittedSnoc | core/src/se/exuvo/aurora/ai/goap/planner/ReGoapNode.java:144-157 | trying one more settings appends its pair exactly when it is admitted |
| GoapNode.AdmittedPrefix | core/src/se/exuvo/aurora/ai/goap/planner/ReGoapNode.java:144-157 | one more settings of the list tried |
| GoapNode.CheckAdmits | core/src/se/exuvo/aurora/ai/goap/planner/ReGoapNode.java:149-153 | the admission test made with hasAny, both hasAnyConflict and the procedural check equals Admits |
| GoapNode.ApplyAction | core/src/se/exuvo/aurora/ai/goap/planner/ReGoapNode.java:73-84 | the state gets the effects merged in, and the fresh goal is the clone of newGoal without the pairs the effects satisfy plus the preconditions |
| GoapNode.DifferenceFromWorld | core/src/se/exuvo/aurora/ai/goap/planner/ReGoapNode.java:92-95 | with the intended missingDifference: a fresh difference that is empty exactly when the world satisfies the goal, and holds the missing pairs |
| GoapNode.NarrowedThenExtended | core/src/se/exuvo/aurora/ai/goap/planner/ReGoapNode.java:82-84 | adding the preconditions keeps a narrowed goal a sub-map of the full one |
| GoapNode.MergedWithWorld | core/src/se/exuvo/aurora/ai/goap/planner/ReGoapNode.java:92-95 | what the intended missingDifference writes into the empty diff is empty exactly when the world satisfies the goal, and is the missing pairs when they fit |
| GoapNode.MergedWithWorldState | core/src/se/exuvo/aurora/ai/goap/planner/ReGoapNode.java:92-95 | goalMergedWithWorld: with the intended missingDifference empty exactly when the world satisfies the goal; as written always empty |
| GoapNode.DifferenceAsWritten | core/src/se/exuvo/aurora/ai/goap/planner/ReGoapNode.java:93-94 | as written the two-argument missingDifference leaves diff empty, so every node reports isGoal |
| PriorityQueue.FastPriorityQueue.Init | core/src/se/exuvo/aurora/goap/planner/FastPriorityQueue.java:16-25 | a queue of maxNodes accepted: empty, a heap, an array of maxNodes + 1 slots |
| PriorityQueue.Create | core/src/se/exuvo/aurora/goap/planner/FastPriorityQueue.java:16-25 | the constructor rejects maxNodes <= 0 (and a size whose array length overflows); otherwise an empty heap with getMaxSize() == maxNodes |
| PriorityQueue.FastPriorityQueue.GetCount | core/src/se/exuvo/aurora/goap/planner/FastPriorityQueue.java:27-30 | the number of queued nodes |
| PriorityQueue.FastPriorityQueue.GetMaxSize | core/src/se/exuvo/aurora/goap/planner/FastPriorityQueue.java:33-36 | one less than the array length (slot 0 is unused) |
| PriorityQueue.FastPriorityQueue.Contains | core/src/se/exuvo/aurora/goap/planner/FastPriorityQueue.java:48-57 | fails exactly when queueIndex lies outside the array; otherwise true exactly when the node sits at its queueIndex |
| PriorityQueue.FastPriorityQueue.ContainsIsMembership | core/src/se/exuvo/aurora/goap/planner/FastPriorityQueue.java:48-57 | in a valid queue, contains is true exactly for the queued nodes |
| PriorityQueue.FastPriorityQueue.Enqueue | core/src/se/exuvo/aurora/goap/planner/FastPriorityQueue.java:63-79 | fails on a full queue or a node already contained, changing nothing; otherwise the node is added with its priority and the heap holds |
| PriorityQueue.FastPriorityQueue.Append | core/src/se/exuvo/aurora/goap/planner/FastPriorityQueue.java:74-77 | the node gets its priority and the slot after the last |
| PriorityQueue.FastPriorityQueue.Swap | core/src/se/exuvo/aurora/goap/planner/FastPriorityQueue.java:81-90 | the two nodes exchange slots and slot indices; the contents are unchanged |
| PriorityQueue.FastPriorityQueue.RiseOnce | core/src/se/exuvo/aurora/goap/planner/FastPriorityQueue.java:96-105 | one round of cascadeUp moves the node to its parent's slot |
| PriorityQueue.FastPriorityQueue.CascadeUp | core/src/se/exuvo/aurora/goap/planner/FastPriorityQueue.java:93-106 | a node out of order only with its parent rises until the heap holds; the contents are unchanged |
| PriorityQueue.FastPriorityQueue.SinkOnce | core/src/se/exuvo/aurora/goap/planner/FastPriorityQueue.java:139-146 | one round of cascadeDown moves the node into its smaller child's slot |
| PriorityQueue.FastPriorityQueue.FirstOfFamily | core/src/se/exuvo/aurora/goap/planner/FastPriorityQueue.java:117-138 | the child strictly ahead of the node (the left one on a tie), or the node itself when no child is ahead |
| PriorityQueue.FastPriorityQueue.CascadeDown | core/src/se/exuvo/aurora/goap/planner/FastPriorityQueue.java:108-154 | a node out of order only with its children sinks until the heap holds; the contents are unchanged |
| PriorityQueue.FastPriorityQueue.OnNodeUpdated | core/src/se/exuvo/aurora/goap/planner/FastPriorityQueue.java:227-238 | a node out of order only at its own slot is moved up or down until the heap holds |
| PriorityQueue.FastPriorityQueue.DropLast | core/src/se/exuvo/aurora/goap/planner/FastPriorityQueue.java:252-255 | the last slot empties and its node leaves the queue |
| PriorityQueue.FastPriorityQueue.MoveLast | core/src/se/exuvo/aurora/goap/planner/FastPriorityQueue.java:259-262 | the last node takes the removed node's slot and index; the removed node leaves the queue |
| PriorityQueue.FastPriorityQueue.TakeLastInto | core/src/se/exuvo/aurora/goap/planner/FastPriorityQueue.java:258-262 | after the move only the edges at the moved node's slot may be out of order |
| PriorityQueue.FastPriorityQueue.RemoveQueued | core/src/se/exuvo/aurora/goap/planner/FastPriorityQueue.java:251-265 | a queued node leaves the queue and the heap holds |
| PriorityQueue.FastPriorityQueue.RemoveInner | core/src/se/exuvo/aurora/goap/planner/FastPriorityQueue.java:258-265 | a queued node not in the last slot leaves the queue and the heap holds |
| PriorityQueue.FastPriorityQueue.Remove | core/src/se/exuvo/aurora/goap/planner/FastPriorityQueue.java:243-266 | fails when the node is not contained; otherwise the count drops by one, the node is no longer contained and every other node stays |
| PriorityQueue.FastPriorityQueue.Clear | core/src/se/exuvo/aurora/goap/planner/FastPriorityQueue.java:39-45 | the count is 0 and no node is queued |
| PriorityQueue.FastPriorityQueue.Resize | core/src/se/exuvo/aurora/goap/planner/FastPriorityQueue.java:182-198 | fails for sizes <= 0 or below the count; otherwise a fresh array of the new size keeps slots 1..count and the heap |
| PriorityQueue.FastPriorityQueue.Reallocate | core/src/se/exuvo/aurora/goap/planner/FastPriorityQueue.java:192-197 | the slots move to a fresh array of the new size |
| PriorityQueue.FastPriorityQueue.CopySlots | core/src/se/exuvo/aurora/goap/planner/FastPriorityQueue.java:192-196 | the copy loop: slots 1..count are copied and the rest are empty |
| PriorityQueue.FastPriorityQueue.IsValidQueue | core/src/se/exuvo/aurora/goap/planner/FastPriorityQueue.java:276-287 | true exactly when no child is strictly ahead of its parent |
| PriorityQueue.FastPriorityQueue.UpdatePriority | core/src/se/exuvo/aurora/goap/planner/FastPriorityQueue.java:215-225 | fails when the node is not contained; otherwise the node has the new priority, the heap holds and the contents are unchanged |
| PriorityQueue.FastPriorityQueue.MinAtRoot | core/src/se/exuvo/aurora/goap/planner/FastPriorityQueue.java:165-177 | in a non-empty heap slot 1 holds a node no queued node is strictly ahead of |
| PriorityQueue.FastPriorityQueue.Dequeue | core/src/se/exuvo/aurora/goap/planner/FastPriorityQueue.java:165-177 | fails on an empty queue or a corrupted heap; otherwise it returns the slot-1 node, a minimum-priority node, and removes it |
| PriorityQueue.FastPriorityQueue.RemoveFirst | core/src/se/exuvo/aurora/goap/planner/FastPriorityQueue.java:174-176 | the slot-1 node is removed and returned |
| PriorityQueue.FastPriorityQueue.GetFirst | core/src/se/exuvo/aurora/goap/planner/FastPriorityQueue.java:203-209 | slot 1 of a non-empty queue, an error for an empty one |
| PriorityQueue.RootBelow | core/src/se/exuvo/aurora/goap/planner/FastPriorityQueue.java:276-287 | in a heap whose slots 1..i are full, slot 1 is not behind slot i |
| PriorityQueue.UpStep | core/src/se/exuvo/aurora/goap/planner/FastPriorityQueue.java:96-105 | a swap with a parent not strictly ahead moves the only disorder one level up |
| PriorityQueue.DownStep | core/src/se/exuvo/aurora/goap/planner/FastPriorityQueue.java:117-146 | a swap with the smaller child moves the only disorder one level down |
| PriorityQueue.DownFinal | core/src/se/exuvo/aurora/goap/planner/FastPriorityQueue.java:147-151 | a node not behind its parent nor ahead of its children completes the heap |
| PriorityQueue.RemoveOrder | core/src/se/exuvo/aurora/goap/planner/FastPriorityQueue.java:258-262 | moving the last node into a slot leaves disorder only at that slot |
| PriorityQueue.ResizeKeeps | core/src/se/exuvo/aurora/goap/planner/FastPriorityQueue.java:192-197 | copying the queued slots into an empty array keeps the nodes and the heap |
| PriorityQueue.SlotsSwap | core/src/se/exuvo/aurora/goap/planner/FastPriorityQueue.java:81-90 | exchanging two slots keeps the contents |
| AStarSearch.Create | core/src/se/exuvo/aurora/goap/planner/AStar.java:29-34 | the constructor: a queue of maxNodesToExpand (rejected when not positive), empty maps and no created nodes |
| AStarSearch.AStar.WithFrontier | core/src/se/exuvo/aurora/goap/planner/AStar.java:29-34 | empty maps and created list around a given queue |
| AStarSearch.AStar.ClearNodes | core/src/se/exuvo/aurora/goap/planner/AStar.java:36-41 | every created node is recycled and the list emptied |
| AStarSearch.AStar.Run | core/src/se/exuvo/aurora/goap/planner/AStar.java:92-147 | a returned node is a live descendant of start whose goal merged with the world is empty; null is returned only once the frontier is empty, the iterations reach maxIterations or count + 1 reaches the queue's size; with clearNodes the old nodes are recycled and start is recorded first; a start that is already a goal is returned at once when there is at least one iteration and room in the queue |
| AStarSearch.AStar.Reset | core/src/se/exuvo/aurora/goap/planner/AStar.java:95-101 | frontier, stateToNode and explored are emptied; with clearNodes old nodes are recycled and createdNodes becomes [start] |
| AStarSearch.AStar.Begin | core/src/se/exuvo/aurora/goap/planner/AStar.java:103-147 | start is queued at its cost, then the loop runs; a start that is already a goal is returned |
| AStarSearch.AStar.Search | core/src/se/exuvo/aurora/goap/planner/AStar.java:103-147 | the loop's result and the maps it leaves; a start whose goal the world satisfies is the node returned |
| AStarSearch.AStar.Loop | core/src/se/exuvo/aurora/goap/planner/AStar.java:107-143 | the while loop continues only while the frontier is non-empty, iterations < maxIterations and count + 1 < maxSize; a node it returns satisfies isGoal; a start that already satisfies it is dequeued first and returned (lines 108-113) |
| AStarSearch.AStar.Round | core/src/se/exuvo/aurora/goap/planner/AStar.java:109-142 | one pass: the cheapest node is dequeued and returned if it is a goal, otherwise it is explored and expanded |
| AStarSearch.AStar.Expand | core/src/se/exuvo/aurora/goap/planner/AStar.java:115-142 | the dequeued node is put into explored and its children visited |
| AStarSearch.AStar.Pop | core/src/se/exuvo/aurora/goap/planner/AStar.java:109 | dequeue on a non-empty frontier takes one known node off it |
| AStarSearch.AStar.Children | core/src/se/exuvo/aurora/goap/planner/AStar.java:117 | expand's children are live descendants of start |
| AStarSearch.AStar.Visit | core/src/se/exuvo/aurora/goap/planner/AStar.java:117-142 | each child increments iterations and is recorded with clearNodes; with earlyExit a goal child is returned before any frontier update; break leaves the remaining children |
| AStarSearch.AStar.Consider | core/src/se/exuvo/aurora/goap/planner/AStar.java:122-141 | an explored state is skipped; a queued node with the same state that costs more is replaced, otherwise the loop breaks; the child is queued and indexed by its state |
| AStarSearch.AStar.Enter | core/src/se/exuvo/aurora/goap/planner/AStar.java:130-141 | a costlier similar node is removed, then the child is enqueued |
| AStarSearch.AStar.Replace | core/src/se/exuvo/aurora/goap/planner/AStar.java:133 | the costlier similar node leaves the frontier |
| AStarSearch.AStar.Admit | core/src/se/exuvo/aurora/goap/planner/AStar.java:140 | the child joins the frontier at its cost |
| AStarSearch.GrownWith | core/src/se/exuvo/aurora/goap/planner/AStar.java:117-142 | a live, linked descendant of start may join the nodes a run has met |
| AStarSearch.AStar.Store | core/src/se/exuvo/aurora/goap/planner/AStar.java:115-141 | the maps and created list the loop built are written back |
| GoapPlanner.Create | core/src/se/exuvo/aurora/ai/goap/planner/ReGoapPlanner.java:35-42 | null settings throw; otherwise a planner whose A* queue holds maxNodesToExpand, with no goal and isPlanning() true |
| GoapPlanner.CreateDefault | core/src/se/exuvo/aurora/ai/goap/planner/ReGoapPlanner.java:30-33 | the default settings' 10000-node queue is accepted |
| GoapPlanner.Planner.WithParts | core/src/se/exuvo/aurora/ai/goap/planner/ReGoapPlanner.java:35-42 | the planner starts with no agent, no current goal and calculated false |
| GoapPlanner.Planner.IsPlanning | core/src/se/exuvo/aurora/ai/goap/planner/ReGoapPlanner.java:177-179 | true exactly while calculated is false |
| GoapPlanner.Candidates | core/src/se/exuvo/aurora/ai/goap/planner/ReGoapPlanner.java:62-68 | the goal-set loop keeps the goals, in order, that are not blacklistGoal and report themselves possible |
| GoapPlanner.EligibleMembers | core/src/se/exuvo/aurora/ai/goap/planner/ReGoapPlanner.java:64-68 | a goal is a candidate exactly when it is one of the agent's goals, not blacklisted and possible |
| GoapPlanner.InsertKeepsOrder | core/src/se/exuvo/aurora/ai/goap/planner/ReGoapPlanner.java:70-76 | inserting a goal by priority keeps the list ascending and adds exactly that goal |
| GoapPlanner.SortByPriorityCorrect | core/src/se/exuvo/aurora/ai/goap/planner/ReGoapPlanner.java:70-76 | the sorted candidates are ascending by priority and a permutation of the candidates |
| GoapPlanner.OrderDescending | core/src/se/exuvo/aurora/ai/goap/planner/ReGoapPlanner.java:70-82 | goals are tried in non-increasing priority (sorted ascending, popped from the end), and exactly the candidates are tried |
| GoapPlanner.NarrowMembers | core/src/se/exuvo/aurora/ai/goap/planner/ReGoapPlanner.java:96-105 | a goal pair survives the action loop exactly when no procedurally valid action's effects set it |
| GoapPlanner.ResidualEmpty | core/src/se/exuvo/aurora/ai/goap/planner/ReGoapPlanner.java:107-115 | the residual is empty exactly when every goal pair is set by a valid action's effects or already holds in the world |
| GoapPlanner.Precheck | core/src/se/exuvo/aurora/ai/goap/planner/ReGoapPlanner.java:86-116 | with missingDifference writing into wantedGoalCheck, the check passes exactly when the residual is empty |
| GoapPlanner.Subtract | core/src/se/exuvo/aurora/ai/goap/planner/ReGoapPlanner.java:102-104 | the fresh state receives exactly the pairs of previous that other lacks |
| GoapPlanner.PrecheckAsWritten | core/src/se/exuvo/aurora/ai/goap/planner/ReGoapPlanner.java:86-116 | as written, the two-argument missingDifference ignores wantedGoalCheck, so the check passes for every goal |
| GoapPlanner.PrecheckExample | core/src/se/exuvo/aurora/ai/goap/planner/ReGoapPlanner.java:104-112 | for the goal {fuel: 1}, no actions and an empty world the check as written passes and the corrected check fails |
| GoapPlanner.Planner.Plan | core/src/se/exuvo/aurora/ai/goap/planner/ReGoapPlanner.java:57-167 | goals are tried in Order; a returned goal is the last one tried and carries a fresh non-empty plan, the path of the leaf the search reached; the leaf descends from a root made for a copy of the goal's state in the agent's world, and in the corrected build the world holds every pair of the goal the leaf was made with (FoundFrom); null with no currentPlan means every candidate was tried; calculated is set and the callback receives currentGoal; an exception from the search leaves calculated unset; only the returned goal's plan changes; as written no goal is ever chosen |
| GoapPlanner.Planner.Choose | core/src/se/exuvo/aurora/ai/goap/planner/ReGoapPlanner.java:57-138 | the candidates filtered and sorted, then tried in Order: a chosen goal is the last tried and carries a fresh non-empty plan, the path of the reached leaf, and the leaf descends from a root made for a copy of the goal's state in the agent's world, and in the corrected build the world holds every pair of the goal the leaf was made with (FoundFrom); with no currentPlan a null goal means every candidate was tried |
| GoapPlanner.Planner.TryGoals | core/src/se/exuvo/aurora/ai/goap/planner/ReGoapPlanner.java:80-138 | the while loop pops goals from the end of the sorted list until one gets a non-empty plan, the current plan recurs, or none is left; a chosen goal's plan is the path of the reached leaf, and the leaf descends from a root made for a copy of the goal's state in the agent's world, and in the corrected build the world holds every pair of the goal the leaf was made with (FoundFrom); as written every goal is popped and none is chosen |
| GoapPlanner.Planner.Attempt | core/src/se/exuvo/aurora/ai/goap/planner/ReGoapPlanner.java:83-137 | with the intended missingDifference a goal failing the feasibility check (static actions) is skipped without search; a null leaf or an empty path skips; a path identical to currentPlan stops without a goal; otherwise the goal's plan is the reached leaf's non-empty path, and the leaf descends from a root made for a copy of the goal's state in the agent's world, and in the corrected build the world holds every pair of the goal the leaf was made with (FoundFrom); as written every goal is skipped |
| GoapPlanner.Planner.Search | core/src/se/exuvo/aurora/ai/goap/planner/ReGoapPlanner.java:118-121 | A* runs from a root node for a clone of the goal state, passing debugPlan as clearNodes; a leaf it returns is a reached goal, descends from that root, and in the corrected build the world satisfies the leaf's goal; as written the root itself is returned |
| GoapPlanner.Planner.Root | core/src/se/exuvo/aurora/ai/goap/planner/ReGoapPlanner.java:118-119 | a fresh live root with no parent and no action, made for a copy of the goal's state in the agent's world, built the way the planner is; as written it already counts as reached |
| GoapPlanner.Planner.Feasible | core/src/se/exuvo/aurora/ai/goap/planner/ReGoapPlanner.java:85-116 | the check passes when actions are dynamic, and also as written; with the intended missingDifference it passes exactly when the residual is empty |
| GoapPlanner.Planner.SearchPlan | core/src/se/exuvo/aurora/ai/goap/planner/ReGoapPlanner.java:118-137 | after the search: a null leaf or an empty path skips, a path identical to currentPlan stops, otherwise the goal's plan becomes the reached leaf's non-empty path and the leaf descends from a root made for a copy of the goal's state in the agent's world, and in the corrected build the world holds every pair of the goal the leaf was made with (FoundFrom); as written the path is always empty, so the goal is skipped |
| QuadtreeIntList.IntList.constructor | core/src/se/exuvo/aurora/utils/quadtree/IntList.java:27-31 | an empty list with capacity fieldsPerElement * initialElementCapacity and no erased records |
| QuadtreeIntList.IntList.Default | core/src/se/exuvo/aurora/utils/quadtree/IntList.java:18-20 | the one-argument constructor makes room for 16 records |
| QuadtreeIntList.IntList.Size | core/src/se/exuvo/aurora/utils/quadtree/IntList.java:36-38 | the number of records |
| QuadtreeIntList.IntList.Set | core/src/se/exuvo/aurora/utils/quadtree/IntList.java:51-54 | under the assertion 0 <= n < size and 0 <= field < fieldsPerElement, the field reads back the value and every other field is unchanged |
| QuadtreeIntList.IntList.Clear | core/src/se/exuvo/aurora/utils/quadtree/IntList.java:59-62 | size 0 and an empty free list |
| QuadtreeIntList.IntList.PushBack | core/src/se/exuvo/aurora/utils/quadtree/IntList.java:67-85 | returns the old size and increments it; capacity doubles the needed size when the record does not fit; every existing field is kept |
| QuadtreeIntList.IntList.MakeRoom | core/src/se/exuvo/aurora/utils/quadtree/IntList.java:72-83 | after it one more record fits, and the old contents are kept |
| QuadtreeIntList.IntList.Grow | core/src/se/exuvo/aurora/utils/quadtree/IntList.java:74-82 | a fresh, larger buffer holds the old contents at the same places |
| QuadtreeIntList.IntList.PopBack | core/src/se/exuvo/aurora/utils/quadtree/IntList.java:90-94 | requires size > 0 and decrements it |
| QuadtreeIntList.IntList.Insert | core/src/se/exuvo/aurora/utils/quadtree/IntList.java:99-113 | reuses the most recently erased record (LIFO) without touching the data, otherwise pushes one at the back |
| QuadtreeIntList.IntList.Erase | core/src/se/exuvo/aurora/utils/quadtree/IntList.java:118-123 | pushes n onto the free list by writing the old head into its field 0; size is unchanged |
| QuadtreeIntList.IntList.Copy | core/src/se/exuvo/aurora/utils/quadtree/IntList.java:125-140 | size, free-list head and every record equal other's; the buffer grows to other's capacity only when smaller |
| QuadtreeIntList.IntList.Reserve | core/src/se/exuvo/aurora/utils/quadtree/IntList.java:132-135 | a fresh zeroed buffer of other's capacity |
| QuadtreeIntList.IntList.CopyFrom | core/src/se/exuvo/aurora/utils/quadtree/IntList.java:137-139 | other's buffer, size and free list are taken over |
| QuadtreeIntList.IntList.CopySlots | core/src/se/exuvo/aurora/utils/quadtree/IntList.java:137 | arraycopy: the first source.length slots equal the source |
| QuadtreeIntList.LiveReuse | core/src/se/exuvo/aurora/utils/quadtree/IntList.java:101-109 | insert reusing the free-list head brings exactly that record back into use |
| QuadtreeIntList.LivePush | core/src/se/exuvo/aurora/utils/quadtree/IntList.java:112 | insert with nothing erased brings the record at the old size into use |
| QuadtreeIntList.LiveErase | core/src/se/exuvo/aurora/utils/quadtree/IntList.java:118-123 | erase takes a record in use out of use |
| QuadtreeIntList.EraseThenInsert | core/src/se/exuvo/aurora/utils/quadtree/IntList.java:99-123 | erasing a record and inserting one gives the erased record back and restores the free list |
| QuadtreeNodes.Quadrant | core/src/se/exuvo/aurora/utils/quadtree/QuadtreePoint.java:486-496 | find_leaf picks TL, TR, BL or BR by y <= my and x <= mx: always one of the four |
| QuadtreeNodes.SelectsPoint | core/src/se/exuvo/aurora/utils/quadtree/QuadtreeAABBStatic.java:443-454 | for a one-point rectangle find_leaves selects exactly the quadrant find_leaf picks |
| QuadtreeNodes.SelectsQuadrant | core/src/se/exuvo/aurora/utils/quadtree/QuadtreeAABBStatic.java:443-454 | a rectangle containing a point selects that point's quadrant |
| QuadtreeNodes.SelectsSome | core/src/se/exuvo/aurora/utils/quadtree/QuadtreeAABBStatic.java:443-454 | a well-formed rectangle selects at least one child |
| QuadtreeNodes.FindLeaf | core/src/se/exuvo/aurora/utils/quadtree/QuadtreePoint.java:444-514 | the descent always ends at a leaf |
| QuadtreeNodes.LocateLeaf | core/src/se/exuvo/aurora/utils/quadtree/QuadtreePoint.java:444-514 | the explicit-stack loop of find_leaf returns the leaf the recursive descent reaches |
| QuadtreeNodes.CollectLeaves | core/src/se/exuvo/aurora/utils/quadtree/QuadtreeAABBStatic.java:417-458 | the explicit-stack loop of find_leaves returns the leaves in the order the recursive definition lists them |
| QuadtreeNodes.PushChildren | core/src/se/exuvo/aurora/utils/quadtree/QuadtreeAABBStatic.java:443-454 | a popped branch pushes the selected children TL, TR, BL, BR in that order |
| QuadtreeNodes.PendingOfPushed | core/src/se/exuvo/aurora/utils/quadtree/QuadtreeAABBStatic.java:443-454 | the children a branch pushes hold exactly the branch's leaves still to list, and the stack measure drops |
| QuadtreeNodes.PendingPushed | core/src/se/exuvo/aurora/utils/quadtree/QuadtreeAABBStatic.java:431-454 | replacing a popped branch by its pushed children keeps the pending leaves |
| QuadtreeNodes.FindLeavesOfPoint | core/src/se/exuvo/aurora/utils/quadtree/QuadtreePoint.java:401-514 | find_leaves for a one-point rectangle lists exactly the leaf find_leaf reaches |
| QuadtreeNodes.FindLeafListed | core/src/se/exuvo/aurora/utils/quadtree/QuadtreePoint.java:401-514 | every rectangle containing a point lists the leaf find_leaf reaches for it |
| QuadtreeNodes.MembersOfElements | core/src/se/exuvo/aurora/utils/quadtree/QuadtreePoint.java:336-350 | an element is in the tree exactly when some leaf lists it |
| QuadtreeNodes.NodeInsertMembers | core/src/se/exuvo/aurora/utils/quadtree/QuadtreeAABBStatic.java:460-479 | inserting adds at most the new element, and exactly it when the half-size is non-negative |
| QuadtreeNodes.NodeInsertPoint | core/src/se/exuvo/aurora/utils/quadtree/QuadtreePoint.java:516-531 | for points, insertion adds the element to exactly one leaf |
| QuadtreeNodes.LeafInsertPoint | core/src/se/exuvo/aurora/utils/quadtree/QuadtreePoint.java:533-582 | a leaf insert, with or without a split, holds the old elements plus the new one |
| QuadtreeNodes.NodeInsertPlaced | core/src/se/exuvo/aurora/utils/quadtree/QuadtreeAABBStatic.java:460-479 | insertion keeps every element only under quadrants its rectangle reaches |
| QuadtreeNodes.LeafInsertPlaced | core/src/se/exuvo/aurora/utils/quadtree/QuadtreeAABBStatic.java:481-531 | a leaf insert or split keeps every element placed |
| QuadtreeNodes.NodeInsertDistinct | core/src/se/exuvo/aurora/utils/quadtree/QuadtreeAABBStatic.java:460-531 | inserting an element no leaf lists keeps every leaf free of repeats |
| QuadtreeNodes.PlacedFindLeaf | core/src/se/exuvo/aurora/utils/quadtree/QuadtreePoint.java:119-134 | for points, a placed element is in the leaf find_leaf reaches for its position |
| QuadtreeNodes.RemoveFirstContents | core/src/se/exuvo/aurora/utils/quadtree/QuadtreePoint.java:135-148 | unlinking takes away one occurrence of the element when present, and changes nothing otherwise |
| QuadtreeNodes.RemoveFirstDistinct | core/src/se/exuvo/aurora/utils/quadtree/QuadtreeAABBStatic.java:141-160 | on a list without repeats, unlinking leaves no trace of the element |
| QuadtreeNodes.Unlink | core/src/se/exuvo/aurora/utils/quadtree/QuadtreePoint.java:135-148 | the list walk unlinks the first node holding the element and reports whether it was found |
| QuadtreeNodes.ReplaceFoundElements | core/src/se/exuvo/aurora/utils/quadtree/QuadtreePoint.java:119-150 | replacing the leaf find_leaf reaches changes the tree's contents by the difference of the two nodes |
| QuadtreeNodes.ReplaceFoundPlaced | core/src/se/exuvo/aurora/utils/quadtree/QuadtreePoint.java:119-150 | a found leaf replaced by one with a subset of its elements keeps every element placed |
| QuadtreeNodes.RemoveRectMembers | core/src/se/exuvo/aurora/utils/quadtree/QuadtreeAABBStatic.java:126-164 | unlinking an element from every leaf its rectangle reaches removes it from the tree and nothing else |
| QuadtreeNodes.PlacedFrame | core/src/se/exuvo/aurora/utils/quadtree/QuadtreeAABBStatic.java:126-164 | placement depends only on the rectangles of the elements the tree holds |
| QuadtreeCleanup.CleanupChanged | core/src/se/exuvo/aurora/utils/quadtree/QuadtreePoint.java:155-208 | cleanup reports a change exactly when a branch with four empty leaf children collapsed, and every change shrinks the tree |
| QuadtreeCleanup.CleanupKeeps | core/src/se/exuvo/aurora/utils/quadtree/QuadtreeAABBStatic.java:169-216 | cleanup frees only empty leaves: every element node stays |
| QuadtreeCleanup.CleanupPlaced | core/src/se/exuvo/aurora/utils/quadtree/QuadtreeAABBStatic.java:169-216 | cleanup keeps every element placed and leaves free of repeats |
| QuadtreeCleanup.CleanupNotIdempotent | core/src/se/exuvo/aurora/utils/quadtree/QuadtreePoint.java:155-208 | one pass collapses only one level: a branch of branches of empty leaves needs two calls |
| QuadtreeCleanup.DedupSpec | core/src/se/exuvo/aurora/utils/quadtree/QuadtreeAABBStatic.java:221-314 | the deduplicated list holds each element once |
| QuadtreeCleanup.CleanupFullChanged | core/src/se/exuvo/aurora/utils/quadtree/QuadtreePoint.java:213-311 | cleanupFull reports a change exactly when the tree differs, and every change shrinks it |
| QuadtreeCleanup.MergedContents | core/src/se/exuvo/aurora/utils/quadtree/QuadtreePoint.java:221-311 | four leaf children with at most max_elements/2 elements merge into the parent, which holds exactly their elements |
| QuadtreeCleanup.CleanupFullMembers | core/src/se/exuvo/aurora/utils/quadtree/QuadtreeAABBStatic.java:221-314 | cleanupFull keeps every element in the tree |
| QuadtreeCleanup.CleanupFullPlaced | core/src/se/exuvo/aurora/utils/quadtree/QuadtreeAABBStatic.java:221-314 | cleanupFull keeps every element placed |
| QuadtreeCleanup.CleanupFullDistinct | core/src/se/exuvo/aurora/utils/quadtree/QuadtreeAABBStatic.java:221-314 | with the merged list deduplicated, leaves stay free of repeats |
| QuadtreeCleanup.CleanupFullDuplicates | core/src/se/exuvo/aurora/utils/quadtree/QuadtreeAABBStatic.java:221-314 | as written, an element straddling the centre is listed in all four children and the merged leaf lists it four times |
| QuadtreeCleanup.CleanupFullThenRemove | core/src/se/exuvo/aurora/utils/quadtree/QuadtreeAABBStatic.java:126-164 | after the deduplicating cleanupFull, remove takes the element out of the tree entirely |
| QuadtreeCovered.CoveredFrame | core/src/se/exuvo/aurora/utils/quadtree/QuadtreeAABBStatic.java:126-164 | coverage depends only on the rectangles of the held elements |
| QuadtreeCovered.NodeInsertCovered | core/src/se/exuvo/aurora/utils/quadtree/QuadtreeAABBStatic.java:460-531 | with a non-negative half-size, insertion puts an element under every quadrant its rectangle reaches |
| QuadtreeCovered.RemoveRectCovered | core/src/se/exuvo/aurora/utils/quadtree/QuadtreeAABBStatic.java:126-164 | unlinking an element keeps every other element under each quadrant it reaches |
| QuadtreeCovered.CleanupCovered | core/src/se/exuvo/aurora/utils/quadtree/QuadtreeAABBStatic.java:169-216 | cleanup keeps coverage |
| QuadtreeCovered.CleanupFullCovered | core/src/se/exuvo/aurora/utils/quadtree/QuadtreeAABBStatic.java:221-314 | cleanupFull keeps coverage |
| QuadtreeQuery.KeptSpec | core/src/se/exuvo/aurora/utils/quadtree/QuadtreePoint.java:341-349 | walking a leaf list keeps exactly the elements other than omit |
| QuadtreeQuery.HitsSpec | core/src/se/exuvo/aurora/utils/quadtree/QuadtreePoint.java:336-350 | an element is walked over exactly when some leaf found lists it and it is not omit |
| QuadtreeQuery.FindLeavesMembers | core/src/se/exuvo/aurora/utils/quadtree/QuadtreeAABBStatic.java:417-458 | every leaf find_leaves reports is a leaf of the tree |
| QuadtreeQuery.PointQueryComplete | core/src/se/exuvo/aurora/utils/quadtree/QuadtreePoint.java:325-353 | a point query reports every held element at a point in the rectangle other than omit, and only held elements |
| QuadtreeQuery.MatchingSpec | core/src/se/exuvo/aurora/utils/quadtree/QuadtreeAABBStatic.java:356-359 | an element passes the test exactly when it is walked over and its rectangle meets the query |
| QuadtreeQuery.CommonQuadrant | core/src/se/exuvo/aurora/utils/quadtree/QuadtreeAABBStatic.java:443-454 | two well-formed rectangles that meet are both selected by one quadrant |
| QuadtreeQuery.CoveredListed | core/src/se/exuvo/aurora/utils/quadtree/QuadtreeAABBStatic.java:417-458 | under coverage, an element whose rectangle meets the query is listed by a leaf found |
| QuadtreeQuery.AABBQueryComplete | core/src/se/exuvo/aurora/utils/quadtree/QuadtreeAABBStatic.java:326-368 | an AABB query reports every held element meeting a well-formed rectangle other than omit, each once, and nothing else |
| QuadtreeElements.IdsAppend | core/src/se/exuvo/aurora/utils/quadtree/QuadtreePoint.java:346 | the ids of two joined lists are the two lists of ids joined |
| QuadtreeElements.IdsAt | core/src/se/exuvo/aurora/utils/quadtree/QuadtreePoint.java:346 | each id is the id field of the record at the same position |
| QuadtreeElements.NewRecord | core/src/se/exuvo/aurora/utils/quadtree/QuadtreePoint.java:102-108 | a fresh record in use holds (x, y, id) and every other record in use is unchanged |
| QuadtreeElements.EraseRecord | core/src/se/exuvo/aurora/utils/quadtree/QuadtreePoint.java:148-149 | the record leaves use and the others keep their fields |
| QuadtreePointTree.InsertHolds | core/src/se/exuvo/aurora/utils/quadtree/QuadtreePoint.java:102-114 | inserting a new element keeps the tree holding exactly the live elements, each once, in the leaf of its position |
| QuadtreePointTree.RemoveHolds | core/src/se/exuvo/aurora/utils/quadtree/QuadtreePoint.java:119-150 | removing a live element from its leaf keeps the invariant for the remaining elements |
| QuadtreePointTree.QueryHolds | core/src/se/exuvo/aurora/utils/quadtree/QuadtreePoint.java:325-353 | every element a query walks is live, and every live element at a point in the rectangle is walked |
| QuadtreePointTree.QuadtreePoint.constructor | core/src/se/exuvo/aurora/utils/quadtree/QuadtreePoint.java:82-96 | a single empty root leaf with centre and half-size width/2, height/2 |
| QuadtreePointTree.QuadtreePoint.Insert | core/src/se/exuvo/aurora/utils/quadtree/QuadtreePoint.java:102-114 | appends an (x, y, id) record, returns its index and places it in exactly one leaf |
| QuadtreePointTree.QuadtreePoint.Remove | core/src/se/exuvo/aurora/utils/quadtree/QuadtreePoint.java:119-150 | unlinks the element from its leaf and erases its record; other records are unchanged |
| QuadtreePointTree.QuadtreePoint.Cleanup | core/src/se/exuvo/aurora/utils/quadtree/QuadtreePoint.java:155-208 | one collapsing pass; returns whether anything changed, and a change shrinks the tree |
| QuadtreePointTree.QuadtreePoint.CleanupFull | core/src/se/exuvo/aurora/utils/quadtree/QuadtreePoint.java:213-311 | one collapsing and merging pass; returns whether anything changed |
| QuadtreePointTree.QuadtreePoint.Query | core/src/se/exuvo/aurora/utils/quadtree/QuadtreePoint.java:325-353 | the ids of the elements in the leaves the rectangle reaches, except omit, with no per-element test; every element at a point in the rectangle is reported |
| QuadtreePointTree.QuadtreePoint.Walk | core/src/se/exuvo/aurora/utils/quadtree/QuadtreePoint.java:336-350 | the loop over the leaves found collects the ids of the walked elements |
| QuadtreePointTree.QuadtreePoint.LeafIds | core/src/se/exuvo/aurora/utils/quadtree/QuadtreePoint.java:340-349 | the walk of one leaf list collects the ids of its elements other than omit |
| QuadtreePointTree.QuadtreePoint.Copy | core/src/se/exuvo/aurora/utils/quadtree/QuadtreePoint.java:584-589 | the tree and the records equal the other tree's |
| QuadtreePointTree.QuadtreePoint.CopyRecords | core/src/se/exuvo/aurora/utils/quadtree/QuadtreePoint.java:584-589 | the element records are copied with their positions |
| QuadtreeAABBTree.InsertHolds | core/src/se/exuvo/aurora/utils/quadtree/QuadtreeAABBStatic.java:109-121 | inserting a new element keeps the invariant: placed, covered, no repeats in a leaf |
| QuadtreeAABBTree.RemoveHolds | core/src/se/exuvo/aurora/utils/quadtree/QuadtreeAABBStatic.java:126-164 | removing an element from every leaf its rectangle reaches keeps the invariant and leaves no trace of it |
| QuadtreeAABBTree.CleanupHolds | core/src/se/exuvo/aurora/utils/quadtree/QuadtreeAABBStatic.java:169-216 | cleanup keeps the invariant |
| QuadtreeAABBTree.CleanupFullHolds | core/src/se/exuvo/aurora/utils/quadtree/QuadtreeAABBStatic.java:221-314 | the deduplicating cleanupFull keeps the invariant |
| QuadtreeAABBTree.QueryHolds | core/src/se/exuvo/aurora/utils/quadtree/QuadtreeAABBStatic.java:326-368 | a query reports live elements meeting the rectangle, each once, and all of them when the rectangle is well formed |
| QuadtreeAABBTree.MatchingDedupNext | core/src/se/exuvo/aurora/utils/quadtree/QuadtreeAABBStatic.java:356-359 | marking one more element adds it exactly when it meets the rectangle and is not yet marked |
| QuadtreeAABBTree.QuadtreeAABBStatic.constructor | core/src/se/exuvo/aurora/utils/quadtree/QuadtreeAABBStatic.java:86-103 | an empty root leaf, element half-sizes element_width/2 and element_height/2 |
| QuadtreeAABBTree.QuadtreeAABBStatic.Insert | core/src/se/exuvo/aurora/utils/quadtree/QuadtreeAABBStatic.java:109-121 | appends an (x, y, id) record and places it in every leaf its rectangle reaches |
| QuadtreeAABBTree.QuadtreeAABBStatic.Remove | core/src/se/exuvo/aurora/utils/quadtree/QuadtreeAABBStatic.java:126-164 | deletes the element from every leaf its rectangle reaches and erases its record |
| QuadtreeAABBTree.QuadtreeAABBStatic.Cleanup | core/src/se/exuvo/aurora/utils/quadtree/QuadtreeAABBStatic.java:169-216 | one collapsing pass keeping the invariant |
| QuadtreeAABBTree.QuadtreeAABBStatic.CleanupFull | core/src/se/exuvo/aurora/utils/quadtree/QuadtreeAABBStatic.java:221-314 | one collapsing and merging pass, with duplicates removed from merged lists |
| QuadtreeAABBTree.QuadtreeAABBStatic.Query | core/src/se/exuvo/aurora/utils/quadtree/QuadtreeAABBStatic.java:326-368 | returns each element meeting the rectangle (edges inclusive) at most once, except omit, and leaves every temp mark cleared |
| QuadtreeAABBTree.QuadtreeAABBStatic.QueryAll | core/src/se/exuvo/aurora/utils/quadtree/QuadtreeAABBStatic.java:319-321 | the four-argument query omits nothing (omit_element -1) |
| QuadtreeAABBTree.QuadtreeAABBStatic.Search | core/src/se/exuvo/aurora/utils/quadtree/QuadtreeAABBStatic.java:334-367 | the marking walk returns the matching elements once each and clears the marks |
| QuadtreeAABBTree.QuadtreeAABBStatic.GrowMarks | core/src/se/exuvo/aurora/utils/quadtree/QuadtreeAABBStatic.java:336-340 | temp grows to the element count when smaller, all marks clear |
| QuadtreeAABBTree.QuadtreeAABBStatic.WalkLeaves | core/src/se/exuvo/aurora/utils/quadtree/QuadtreeAABBStatic.java:343-362 | the loop over leaves marks exactly the elements reported |
| QuadtreeAABBTree.QuadtreeAABBStatic.MarkLeaf | core/src/se/exuvo/aurora/utils/quadtree/QuadtreeAABBStatic.java:347-361 | walking one leaf list adds the unmarked matching elements |
| QuadtreeAABBTree.QuadtreeAABBStatic.MarkOne | core/src/se/exuvo/aurora/utils/quadtree/QuadtreeAABBStatic.java:349-360 | an element is reported and marked exactly when unmarked, not omit and meeting the rectangle |
| QuadtreeAABBTree.QuadtreeAABBStatic.Unmark | core/src/se/exuvo/aurora/utils/quadtree/QuadtreeAABBStatic.java:364-366 | every mark is cleared |
| Cargo.TypeOf | core/src/se/exuvo/aurora/starsystems/components/CargoComponent.kt:50-52 | a resource's cargo type is the one whose resource list holds it |
| Cargo.TypeOfUnique | core/src/se/exuvo/aurora/starsystems/components/CargoComponent.kt:50-52 | every resource belongs to exactly one cargo type, so each resource maps to one container |
| Cargo.ContainerOrderComplete | core/src/se/exuvo/aurora/starsystems/components/CargoComponent.kt:37 | set creates a container for every cargo type |
| Cargo.Empty | core/src/se/exuvo/aurora/starsystems/components/CargoComponent.kt:37 | a new container holds exactly its type's resources and uses no volume |
| Cargo.Capacities | core/src/se/exuvo/aurora/starsystems/components/CargoComponent.kt:39-45 | the first loop of set(hull) gives every cargo type a limit |
| Cargo.SumCapacities | core/src/se/exuvo/aurora/starsystems/components/CargoComponent.kt:39-45 | the loop over the hull's container parts returns the limits Capacities gives: each part's capacity added to its type's limit with Long wrap-around |
| Cargo.CapacitiesSum | core/src/se/exuvo/aurora/starsystems/components/CargoComponent.kt:39-45 | each type's limit is the sum of the capacities of that type's container parts, wrapped to a Long |
| Cargo.InstalledMeaning | core/src/se/exuvo/aurora/starsystems/components/CargoComponent.kt:47-54 | after the second loop a type has a container exactly when it had one or has room now, each type with room gets a fresh empty container of that size, and exactly the resources of types with room join the registered ones |
| Cargo.InstalledKeys | core/src/se/exuvo/aurora/starsystems/components/CargoComponent.kt:47-54 | every container keeps holding exactly its type's resources |
| Cargo.RegisteredHaveContainers | core/src/se/exuvo/aurora/starsystems/components/CargoComponent.kt:47-54 | a registered resource's type always has a container |
| Cargo.RegisteredGrows | core/src/se/exuvo/aurora/starsystems/components/CargoComponent.kt:47-54 | installing never unregisters a resource |
| Cargo.ColonyHoldsEverything | core/src/se/exuvo/aurora/starsystems/components/CargoComponent.kt:59-74 | after set(colony) all five types have an empty container of Long.MAX_VALUE and every resource is registered |
| Cargo.Store | core/src/se/exuvo/aurora/starsystems/components/CargoComponent.kt:250-257 | a store succeeds exactly when usedVolume + volume stays within maxVolume, which then still holds; the container keeps its resources |
| Cargo.Take | core/src/se/exuvo/aurora/starsystems/components/CargoComponent.kt:319-320 | a take keeps the limit and the resources of the container |
| Cargo.StoreThenTake | core/src/se/exuvo/aurora/starsystems/components/CargoComponent.kt:250-257 | taking back what was just stored restores the container (also lines 319-320) |
| Cargo.StoreExactly | core/src/se/exuvo/aurora/starsystems/components/CargoComponent.kt:250-257 | a store that fits without overflow adds exactly amount, retrieving the same amount takes all of it, and the take undoes the store (also lines 313-320) |
| Cargo.CargoComponent.Hold | core/src/se/exuvo/aurora/starsystems/components/CargoComponent.kt:16 | a registered resource's container holds an entry for it |
| Cargo.CargoComponent.constructor | core/src/se/exuvo/aurora/starsystems/components/CargoComponent.kt:14-21 | no containers or munitions, cargoChanged false and the mass not computed (-1) |
| Cargo.CargoComponent.SetHull | core/src/se/exuvo/aurora/starsystems/components/CargoComponent.kt:27-57 | a hull without container parts is an InvalidParameterException and nothing changes; otherwise the hash is recorded, cargoChanged is set, and only types with summed capacity > 0 get containers and registered resources |
| Cargo.CargoComponent.SetColony | core/src/se/exuvo/aurora/starsystems/components/CargoComponent.kt:59-74 | the hash is recorded, cargoChanged is set and all five types get containers of Long.MAX_VALUE |
| Cargo.CargoComponent.Install | core/src/se/exuvo/aurora/starsystems/components/CargoComponent.kt:47-71 | the container loop installs exactly the containers and registrations Installed and Registered describe |
| Cargo.CargoComponent.Amount | core/src/se/exuvo/aurora/starsystems/components/CargoComponent.kt:132-146 | an unregistered resource has amount 0, a registered one its container's content |
| Cargo.CargoComponent.MunitionAmount | core/src/se/exuvo/aurora/starsystems/components/CargoComponent.kt:148-162 | the stored count, or 0 when the munition is unknown or its storage resource has no container |
| Cargo.CargoComponent.UsedVolume | core/src/se/exuvo/aurora/starsystems/components/CargoComponent.kt:164-174 | the volume used in the resource's container, or 0 without one |
| Cargo.CargoComponent.MaxVolume | core/src/se/exuvo/aurora/starsystems/components/CargoComponent.kt:176-186 | the limit of the resource's container, or 0 without one |
| Cargo.CargoComponent.AddCargo | core/src/se/exuvo/aurora/starsystems/components/CargoComponent.kt:240-264 | specificVolume 0 is an InvalidParameterException; true exactly when a container exists and the volume fits, and then the container takes amount and amount*specificVolume and the mass cache is dropped; false changes nothing |
| Cargo.CargoComponent.RetrieveCargo | core/src/se/exuvo/aurora/starsystems/components/CargoComponent.kt:297-327 | specificVolume 0 is an InvalidParameterException; returns 0 when nothing is stored, else min(available, amount), taken with its volume from the container, and the mass cache is dropped |
| Cargo.CargoComponent.AddMunition | core/src/se/exuvo/aurora/starsystems/components/CargoComponent.kt:266-295 | true exactly when the storage container exists and the volume fits; then count, container mass and container volume rise together |
| Cargo.CargoComponent.RetrieveMunition | core/src/se/exuvo/aurora/starsystems/components/CargoComponent.kt:329-353 | 0 when none is stored, else min(count, amount), and count, container mass and container volume fall together |
| Cargo.CargoComponent.MassChange | core/src/se/exuvo/aurora/starsystems/components/CargoComponent.kt:355-358 | cargoChanged is set and the cached mass is dropped, nothing else changes |
| Cargo.CargoComponent.CalculateMass | core/src/se/exuvo/aurora/starsystems/components/CargoComponent.kt:122-130 | the sum of the amounts of every registered resource, on Longs |
| Cargo.CargoComponent.Mass | core/src/se/exuvo/aurora/starsystems/components/CargoComponent.kt:21-25 | the getter returns the cached mass, recomputing and caching the cargo's mass when it is unset; when the cache agreed with the cargo it returns the current cargo mass and the cache stays coherent (after set, which does not clear the cache, a stale value is returned) |
| Cargo.AddThenRetrieve | core/src/se/exuvo/aurora/starsystems/components/CargoComponent.kt:240-264 | adding an amount that fits and retrieving it returns the full amount and restores the holds (also lines 297-327) |
| Colony.ProgressOf | core/src/se/exuvo/aurora/starsystems/components/ColonyComponents.kt:122-130 | nothing used gives 0; something used of a zero total divides by zero; otherwise the Int of 100 * used / total |
| Colony.ProgressPercent | core/src/se/exuvo/aurora/starsystems/components/ColonyComponents.kt:122-130 | without overflow, for used within the total, progress is the percentage rounded down, between 0 and 100, and 100 exactly when everything is used |
| Colony.Zeroes | core/src/se/exuvo/aurora/starsystems/components/ColonyComponents.kt:113-116 | the loop over the cost records 0 used for exactly the resources the hull costs |
| Colony.Building.constructor | core/src/se/exuvo/aurora/starsystems/components/ColonyComponents.kt:70-73 | an empty name and no cost |
| Colony.Slipway.constructor | core/src/se/exuvo/aurora/starsystems/components/ColonyComponents.kt:101-104 | no hull, an empty cost and nothing used |
| Colony.Slipway.Build | core/src/se/exuvo/aurora/starsystems/components/ColonyComponents.kt:106-117 | a slipway already building is an IllegalStateException and nothing changes; otherwise it takes the hull and its cost and records 0 used of each resource it costs |
| Colony.Slipway.UsedResources | core/src/se/exuvo/aurora/starsystems/components/ColonyComponents.kt:119 | the Long sum of the used amounts |
| Colony.Slipway.TotalCost | core/src/se/exuvo/aurora/starsystems/components/ColonyComponents.kt:120 | the Long sum of the hull's cost |
| Colony.Slipway.Progress | core/src/se/exuvo/aurora/starsystems/components/ColonyComponents.kt:122-130 | ProgressOf the two sums |
| Colony.BuildStartsAtZero | core/src/se/exuvo/aurora/starsystems/components/ColonyComponents.kt:106-130 | right after build, progress is 0 |
| Colony.ModificationCostExact | core/src/se/exuvo/aurora/starsystems/components/ColonyComponents.kt:156-174 | below overflow a modification costs its size term times the type and location multipliers over 10, or 100 for a retool |
| Colony.ModificationCostOrder | core/src/se/exuvo/aurora/starsystems/components/ColonyComponents.kt:133-141 | below overflow a military yard costs at least as much as a civilian one and an orbital yard at least as much as a terrestrial one (also lines 156, 164-166, 174) |
| Colony.CostGrowsWithSize | core/src/se/exuvo/aurora/starsystems/components/ColonyComponents.kt:156-174 | below overflow a larger yard (capacity, slipways or added capacity) never costs less to modify |
| Colony.Shipyard.constructor | core/src/se/exuvo/aurora/starsystems/components/ColonyComponents.kt:79-98 | capacity 1000, the location's base build rate, no tooled hull, no slipways, no activity, modification rate 1000 and progress 0 |
| Colony.Shipyard.Complete | core/src/se/exuvo/aurora/starsystems/components/ColonyComponents.kt:157-177 | expanding adds the capacity (Long sum), retooling sets the tooled hull, adding a slipway appends one fresh empty slipway; nothing else changes |
| Colony.ColonyComponent.constructor | core/src/se/exuvo/aurora/starsystems/components/ColonyComponents.kt:40-47 | every count zero and both lists empty |
| Colony.ColonyComponent.Set | core/src/se/exuvo/aurora/starsystems/components/ColonyComponents.kt:49-59 | population and the three given land areas are replaced, mining land area and the lists kept, and the component itself is returned |
| Colony.ColonyComponent.Copy | core/src/se/exuvo/aurora/starsystems/components/ColonyComponents.kt:61-67 | the target gets the four values set copies and the same buildings and shipyards, and keeps its own mining land area |
| Colony.ColonyComponent.CopyAll | core/src/se/exuvo/aurora/starsystems/components/ColonyComponents.kt:61-67 | the corrected copy: the target also gets the mining land area |
| Colony.CopyDropsMining | core/src/se/exuvo/aurora/starsystems/components/ColonyComponents.kt:61-67 | copying a colony with mining land area 5 onto a fresh one leaves the target at 0 |
| Commands.Survivors | core/src/se/exuvo/aurora/galactic/Commands.kt:38-48 | the current replacements of the references that still resolve, in order: never more than the input, each one a resolved reference |
| Commands.SurvivorsConcat | core/src/se/exuvo/aurora/galactic/Commands.kt:38-48 | the survivors of two lists joined are the survivors of each, joined |
| Commands.SurvivorsEmpty | core/src/se/exuvo/aurora/galactic/Commands.kt:50 | no reference survives exactly when none of them resolves |
| Commands.RemoveAt | core/src/se/exuvo/aurora/galactic/Commands.kt:45 | Bag.remove(i): one element fewer, the prefix kept, and the last element moved into the gap |
| Commands.EntityCommand.constructor | core/src/se/exuvo/aurora/galactic/Commands.kt:18 | the command holds the given reference |
| Commands.EntityCommand.IsValid | core/src/se/exuvo/aurora/galactic/Commands.kt:19-28 | valid exactly when the reference resolves, and then the reference is replaced by its resolution; otherwise it is kept; an unset star system throws |
| Commands.EntityCommand.GetSystem | core/src/se/exuvo/aurora/galactic/Commands.kt:30 | the star system of the reference, throwing when it is unset |
| Commands.EntitiesCommand.constructor | core/src/se/exuvo/aurora/galactic/Commands.kt:33 | the command holds the given references |
| Commands.EntitiesCommand.IsValid | core/src/se/exuvo/aurora/galactic/Commands.kt:34-51 | the references that do not resolve are removed and the others replaced (the same multiset as Survivors); valid exactly when some reference resolves, that is when the bag is non-empty afterwards; an unset star system throws |
| Commands.EntitiesCommand.GetSystem | core/src/se/exuvo/aurora/galactic/Commands.kt:53 | the first reference's star system; an empty bag or an unset system throws |
| Commands.TargetCheck | core/src/se/exuvo/aurora/galactic/Commands.kt:62-69 | the target check passes exactly when the target resolves to an entity of the command's star system; the errors are those of the unset star systems |
| Commands.EntityTargetEntityCommand.constructor | core/src/se/exuvo/aurora/galactic/Commands.kt:56 | the command holds both references |
| Commands.EntityTargetEntityCommand.IsValid | core/src/se/exuvo/aurora/galactic/Commands.kt:57-70 | the entity must resolve first; then valid exactly when the target resolves into the same star system, replacing the target only then |
| Commands.EntitiesTargetEntityCommand.constructor | core/src/se/exuvo/aurora/galactic/Commands.kt:73 | the command holds the references and the target |
| Commands.EntitiesTargetEntityCommand.IsValid | core/src/se/exuvo/aurora/galactic/Commands.kt:74-87 | the references are filtered as for EntitiesCommand; an empty result is invalid, otherwise the target must resolve into the first reference's star system |
| Commands.Filter | core/src/se/exuvo/aurora/galactic/Commands.kt:34-48 | the while loop keeps exactly the survivors (as a multiset), or throws when a reference's star system is unset |
| Commands.FilteringStep | core/src/se/exuvo/aurora/galactic/Commands.kt:38-48 | one iteration keeps the loop invariant: what is kept plus the survivors of what is left is unchanged |
| Commands.Unset | core/src/se/exuvo/aurora/galactic/Commands.kt:39 | reaching a reference with an unset star system means the input had one |
| Commands.Filtered | core/src/se/exuvo/aurora/galactic/Commands.kt:38-48 | when the loop ends, every reference had a star system and what is kept is exactly the survivors |
| Commands.Swapped | core/src/se/exuvo/aurora/galactic/Commands.kt:45 | removing the first pending reference by moving the last one into its place drops exactly that reference |
| Commands.FilterStep | core/src/se/exuvo/aurora/galactic/Commands.kt:39-47 | one iteration: a resolving reference is replaced and the index moves on; otherwise it is removed and the index stays |
| Commands.SplitReplace | core/src/se/exuvo/aurora/galactic/Commands.kt:42 | replacing at the index moves that reference from the pending part to the kept part |
| Commands.SplitRemove | core/src/se/exuvo/aurora/galactic/Commands.kt:45 | removing at the index leaves the kept part and the pending part without its first element |
| Commands.DropSurvivors | core/src/se/exuvo/aurora/galactic/Commands.kt:45 | dropping a reference that does not resolve does not change the survivors |
| Commands.OldHasSystems | core/src/se/exuvo/aurora/galactic/Commands.kt:39 | every reference visited had a star system |
| Groups.LeaveBag | core/src/se/exuvo/aurora/starsystems/systems/GroupSystem.kt:187-195 | the bag loses one entry: the last entry moves into the freed slot, or a bag of one is emptied |
| Groups.EnterConsistent | core/src/se/exuvo/aurora/starsystems/systems/GroupSystem.kt:75-78 | appending a new member at the end and recording it at that slot keeps the index map consistent with the bag |
| Groups.LeaveFixedConsistent | core/src/se/exuvo/aurora/starsystems/systems/GroupSystem.kt:183-195 | the corrected removal keeps the index map consistent with the bag, drops exactly the entity from the map's keys and from the bag |
| Groups.LeaveAgrees | core/src/se/exuvo/aurora/starsystems/systems/GroupSystem.kt:183-195 | when the removed entity is not in the last slot, the removal as written equals the corrected one |
| Groups.LeaveLastStale | core/src/se/exuvo/aurora/starsystems/systems/GroupSystem.kt:183-195 | removing the entity in the last slot of a bag of two or more re-records it at the freed slot, as a member the bag no longer holds |
| Groups.EnterAll | core/src/se/exuvo/aurora/starsystems/systems/GroupSystem.kt:111-129 | adding a list of entities appends, in order, the ones not yet members, keeps the index map consistent and the group sets linked, and makes every listed entity a member (also lines 151-169) |
| Groups.LinkLeave | core/src/se/exuvo/aurora/starsystems/systems/GroupSystem.kt:183-197 | removing an entity from a group's map and the group from its set keeps membership and group sets linked |
| Groups.LinkClear | core/src/se/exuvo/aurora/starsystems/systems/GroupSystem.kt:248-256 | clearing a group's map and stripping the group from its members' sets keeps them linked |
| Groups.ConsistentMembers | core/src/se/exuvo/aurora/starsystems/systems/GroupSystem.kt:26-27 | an entity is in the bag exactly when it has an index, and an empty map means an empty bag |
| Groups.AppendedMembers | core/src/se/exuvo/aurora/starsystems/systems/GroupSystem.kt:111-129 | appending keeps the old bag as a prefix and holds exactly the old members and the added ones |
| Groups.StripGroup | core/src/se/exuvo/aurora/starsystems/systems/GroupSystem.kt:252-256 | the loop over the bag removes the group from each member's group set |
| Groups.ClearKeeps | core/src/se/exuvo/aurora/starsystems/systems/GroupSystem.kt:239-261 | clearing keeps every index map consistent and the group sets linked |
| Groups.LinkEnterGroup | core/src/se/exuvo/aurora/starsystems/systems/GroupSystem.kt:62-68 | creating an empty group keeps the group sets linked |
| Groups.GroupSystem.constructor | core/src/se/exuvo/aurora/starsystems/systems/GroupSystem.kt:26-28 | the three maps start empty |
| Groups.GroupSystem.Get | core/src/se/exuvo/aurora/starsystems/systems/GroupSystem.kt:30-34 | an unknown group gives the empty bag; every entry of the bag is a member, and every member is in it |
| Groups.GroupSystem.GetGroups | core/src/se/exuvo/aurora/starsystems/systems/GroupSystem.kt:36-40 | an unknown entity gives the empty set; a group is in the set exactly when the entity is a member of it |
| Groups.GroupSystem.Add | core/src/se/exuvo/aurora/starsystems/systems/GroupSystem.kt:52-91 | afterwards the entity is a member and the group is in its set; a member already in changes nothing; otherwise it is appended to the bag at index size and the group added to its set |
| Groups.GroupSystem.AddAll | core/src/se/exuvo/aurora/starsystems/systems/GroupSystem.kt:93-131 | the group exists afterwards, every listed entity is a member, and the bag is the old one with the new members appended in order (also lines 133-171) |
| Groups.GroupSystem.Remove | core/src/se/exuvo/aurora/starsystems/systems/GroupSystem.kt:173-201 | the corrected removal: the entity stops being a member, the bag keeps every other member and loses it, other groups are unchanged, and a non-member changes nothing |
| Groups.GroupSystem.RemoveAsWritten | core/src/se/exuvo/aurora/starsystems/systems/GroupSystem.kt:173-201 | removal as written: the last bag entry is always re-recorded at the freed slot, even when it is the removed entity |
| Groups.GroupSystem.RemoveAll | core/src/se/exuvo/aurora/starsystems/systems/GroupSystem.kt:203-237 | with the corrected step, none of the listed entities is a member afterwards, the bag keeps exactly the others, and other groups are unchanged |
| Groups.GroupSystem.Clear | core/src/se/exuvo/aurora/starsystems/systems/GroupSystem.kt:239-261 | the group ends empty with no members; a missing or empty group changes nothing; otherwise its map and bag are emptied and it is stripped from its members' sets |
| Groups.RemoveLastStaysMember | core/src/se/exuvo/aurora/starsystems/systems/GroupSystem.kt:173-201 | adding a and b to a group and removing b as written leaves isMemberOf(b) true while the bag and b's group set no longer hold it |
| Health.Scan | core/src/se/exuvo/aurora/starsystems/components/HealthComponents.kt:175-184 | the walk over higher entries finds the first entry at or after i whose first part has the volume, and no earlier one has it |
| Health.BagRemoveContents | core/src/se/exuvo/aurora/starsystems/components/HealthComponents.kt:155 | removing a part from a bag takes exactly one copy of it out |
| Health.Add | core/src/se/exuvo/aurora/starsystems/components/HealthComponents.kt:190-226 | adding keeps the map sorted with distinct keys: the part joins the bag of its volume under that key plus the volume, or starts a new bag, and the maximum follows the larger key |
| Health.Drop | core/src/se/exuvo/aurora/starsystems/components/HealthComponents.kt:129-163 | the zeroing branch of setPartHP keeps the map sorted: a bag of one is dropped, a larger bag loses the part under its key less the volume, and the maximum is recomputed as the source does |
| Health.AddToBag | core/src/se/exuvo/aurora/starsystems/components/HealthComponents.kt:196-211 | when a bag of the volume exists, the part joins it under the old key plus the volume |
| Health.AddNewBag | core/src/se/exuvo/aurora/starsystems/components/HealthComponents.kt:214-223 | without such a bag the part starts a new bag under its own volume |
| Health.DropBag | core/src/se/exuvo/aurora/starsystems/components/HealthComponents.kt:138-149 | a bag of one part is removed from the map |
| Health.DropFromBag | core/src/se/exuvo/aurora/starsystems/components/HealthComponents.kt:151-162 | a larger bag loses the part and is put back under its key less the part's volume |
| Health.AddGrows | core/src/se/exuvo/aurora/starsystems/components/HealthComponents.kt:190-226 | when the new key is free, adding raises the total of the keys by the part's volume and adds the part to the members, so no part is lost |
| Health.AddIntendedKeepsParts | core/src/se/exuvo/aurora/starsystems/components/HealthComponents.kt:190-226 | the intended add, which merges a bag into one already filed under its new key, never loses a part: the members gain exactly the new part, whatever keys are taken |
| Health.AddIntendedAgrees | core/src/se/exuvo/aurora/starsystems/components/HealthComponents.kt:190-226 | where the new key is free the intended add is the add as written, and the total of the keys grows by the part's volume |
| Health.DropShrinks | core/src/se/exuvo/aurora/starsystems/components/HealthComponents.kt:129-163 | when the new key is free, dropping lowers the total of the keys by the part's volume and removes just that part |
| Health.DropWithin | core/src/se/exuvo/aurora/starsystems/components/HealthComponents.kt:129-163 | whatever keys are taken, dropping a listed part takes one copy of it out of the members and never adds one |
| Health.PutWithin | core/src/se/exuvo/aurora/starsystems/components/HealthComponents.kt:158 | putting a bag under a key, taken or free, leaves no member that was not in the map or the bag |
| Health.AddConsistent | core/src/se/exuvo/aurora/starsystems/components/HealthComponents.kt:190-226 | adding a part of positive volume keeps every bag uniform: all its parts have one volume and its key is their total |
| Health.DropConsistent | core/src/se/exuvo/aurora/starsystems/components/HealthComponents.kt:129-163 | dropping a part of its bag keeps every bag uniform |
| Health.AddTracked | core/src/se/exuvo/aurora/starsystems/components/HealthComponents.kt:206-220 | adding keeps damageablePartsMaxVolume equal to the largest key |
| Health.DropTracked | core/src/se/exuvo/aurora/starsystems/components/HealthComponents.kt:144-162 | dropping keeps damageablePartsMaxVolume equal to the largest key, or 0 for an empty map |
| Health.RaisedLastKey | core/src/se/exuvo/aurora/starsystems/components/HealthComponents.kt:203-208 | re-keying an entry to a larger key makes the largest key the larger of the new key and the old largest |
| Health.AddCollisionLosesParts | core/src/se/exuvo/aurora/starsystems/components/HealthComponents.kt:202-216 | a bag of two 5 cm³ parts under key 10 and a new 10 cm³ part: the new bag overwrites key 10, the two parts are lost and the total volume stays 10 |
| Health.AddAll | core/src/se/exuvo/aurora/starsystems/components/HealthComponents.kt:93-95 | adding every part reference of the hull in order keeps the map sorted with distinct keys |
| Health.AddAllKeepsShape | core/src/se/exuvo/aurora/starsystems/components/HealthComponents.kt:93-95 | set(hull) on parts of positive volume keeps the bags uniform and the maximum tracked |
| Health.MaxHealths | core/src/se/exuvo/aurora/starsystems/components/HealthComponents.kt:90 | one cell per part, holding that part's maxHealth |
| Health.TotalFitsInt | core/src/se/exuvo/aurora/starsystems/components/HealthComponents.kt:91 | fewer than 2^23 parts keep the summed hit points inside an Int, so the toInt does not wrap |
| Health.ShieldComponent.constructor | core/src/se/exuvo/aurora/starsystems/components/HealthComponents.kt:14-15 | shieldHP starts at 0 |
| Health.ShieldComponent.Set | core/src/se/exuvo/aurora/starsystems/components/HealthComponents.kt:17-29 | no shields is an InvalidParameterException; otherwise the result is the Long-wrapped sum of the shield charges |
| Health.ShieldComponent.Copy | core/src/se/exuvo/aurora/starsystems/components/HealthComponents.kt:31-33 | the target takes shieldHP |
| Health.ShieldSumExact | core/src/se/exuvo/aurora/starsystems/components/HealthComponents.kt:22-26 | charges bounded so that their count times the bound fits a Long sum without wrapping |
| Health.SumCapped | core/src/se/exuvo/aurora/starsystems/components/HealthComponents.kt:22-26 | a sum of values in [0, cap] lies in [0, count * cap] |
| Health.FilledRow | core/src/se/exuvo/aurora/starsystems/components/HealthComponents.kt:42 | a row filled with one value sums to width times that value |
| Health.FilledGrid | core/src/se/exuvo/aurora/starsystems/components/HealthComponents.kt:42-58 | a grid whose layer l is filled with blockHP[l] sums to width times the sum of the layers' block HP |
| Health.ArmorComponent.constructor | core/src/se/exuvo/aurora/starsystems/components/HealthComponents.kt:39 | no armor grid yet |
| Health.ArmorComponent.SetHull | core/src/se/exuvo/aurora/starsystems/components/HealthComponents.kt:41-43 | a fresh grid of armorLayers by armor width whose layer l holds armorBlockHP[l] everywhere |
| Health.ArmorComponent.SetMunition | core/src/se/exuvo/aurora/starsystems/components/HealthComponents.kt:45-48 | a fresh grid of armorLayers by max(1, surface area / 1000000) filled with the munition's block HP |
| Health.ArmorComponent.GetTotalHP | core/src/se/exuvo/aurora/starsystems/components/HealthComponents.kt:50-61 | no grid is a NullPointerException; otherwise the Int-wrapped sum of every cell |
| Health.ArmorComponent.Copy | core/src/se/exuvo/aurora/starsystems/components/HealthComponents.kt:63-77 | no grid is a NullPointerException; a target grid with no layers while the source has none either fails on the row read; otherwise the target holds a grid of the same shape with the same cells, reallocated only when the shapes differ |
| Health.HPComponent.constructor | core/src/se/exuvo/aurora/starsystems/components/HealthComponents.kt:231-232 | health starts at -1 |
| Health.HPComponent.Set | core/src/se/exuvo/aurora/starsystems/components/HealthComponents.kt:234-236 | health takes the given value |
| Health.HPComponent.SetFromParts | core/src/se/exuvo/aurora/starsystems/components/HealthComponents.kt:238-244 | health is the sum of the parts' maxHealth, wrapped to an Int and truncated to a Short |
| Health.HPComponent.Copy | core/src/se/exuvo/aurora/starsystems/components/HealthComponents.kt:246-248 | the target takes health |
| Health.MunitionHealthExact | core/src/se/exuvo/aurora/starsystems/components/HealthComponents.kt:238-244 | fewer than 128 parts keep the sum inside a Short, so no truncation happens |
| Health.TotalAfterUpdate | core/src/se/exuvo/aurora/starsystems/components/HealthComponents.kt:166 | the incremental totalPartHP update equals the Int-wrapped sum of the updated cells |
| Health.Damaged | core/src/se/exuvo/aurora/starsystems/components/HealthComponents.kt:125-164 | the map change of setPartHP: revived parts are added, zeroed parts dropped, others leave it unchanged; the map stays sorted |
| Health.DamagedKeepsShape | core/src/se/exuvo/aurora/starsystems/components/HealthComponents.kt:125-164 | setPartHP keeps the bags uniform and the maximum tracked |
| Health.CopyCells | core/src/se/exuvo/aurora/starsystems/components/HealthComponents.kt:103-105 | the target array ends up with the source's cells |
| Health.PartsHPComponent.constructor | core/src/se/exuvo/aurora/starsystems/components/HealthComponents.kt:83-87 | totalPartHP -1, no cells, an empty map and maximum 0 |
| Health.PartsHPComponent.GetPartHP | core/src/se/exuvo/aurora/starsystems/components/HealthComponents.kt:113-115 | the cell of the part's index as an Int in [0, 255], or IndexOutOfBounds outside the array |
| Health.PartsHPComponent.FindEntry | core/src/se/exuvo/aurora/starsystems/components/HealthComponents.kt:171-188 | the entry at or above the volume whose first part has that volume, or none |
| Health.PartsHPComponent.AddDamageablePart | core/src/se/exuvo/aurora/starsystems/components/HealthComponents.kt:190-226 | the map and maximum become Add of the old ones; the cells and total are untouched |
| Health.PartsHPComponent.GrowEntry | core/src/se/exuvo/aurora/starsystems/components/HealthComponents.kt:196-225 | with a bag of the part's volume found, the bag moves to its old key plus the part's volume with the part appended, and the maximum rises to that key when larger |
| Health.PartsHPComponent.NewEntry | core/src/se/exuvo/aurora/starsystems/components/HealthComponents.kt:214-225 | with no such bag, a one-part bag is put under the part's volume and the maximum rises to it when larger |
| Health.PartsHPComponent.RemoveDamageablePart | core/src/se/exuvo/aurora/starsystems/components/HealthComponents.kt:134-163 | the map and maximum become Drop of the old ones; the cells and total are untouched |
| Health.PartsHPComponent.UpdateDamageable | core/src/se/exuvo/aurora/starsystems/components/HealthComponents.kt:125-164 | zeroing a part whose bag is not found is a NullPointerException (the !! at 135) with nothing changed; otherwise the map becomes Damaged of the old one |
| Health.PartsHPComponent.SetPartHP | core/src/se/exuvo/aurora/starsystems/components/HealthComponents.kt:118-169 | health outside [0, maxHealth] is an IllegalArgumentException and an index outside the cells IndexOutOfBounds, both changing nothing; otherwise the cell becomes health, totalPartHP moves by health - oldHP (Int-wrapped) and the map becomes Damaged of the old one |
| Health.PartsHPComponent.SumCells | core/src/se/exuvo/aurora/starsystems/components/HealthComponents.kt:91 | the Int-wrapped sum of the cells |
| Health.PartsHPComponent.Set | core/src/se/exuvo/aurora/starsystems/components/HealthComponents.kt:89-96 | fresh cells holding each part's maxHealth, their Int-wrapped total, and every part added to the map in order |
| Health.PartsHPComponent.AddDamageableParts | core/src/se/exuvo/aurora/starsystems/components/HealthComponents.kt:93-95 | the map becomes AddAll of the old one over the refs |
| Health.PartsHPComponent.Copy | core/src/se/exuvo/aurora/starsystems/components/HealthComponents.kt:98-110 | the target gets the cells, totalPartHP and maximum but keeps its own map; its cell array is reallocated exactly when its total is -1 or the sizes differ |
| IDs.EntityUUID.Hash | core/src/se/exuvo/aurora/starsystems/components/IDComponents.kt:28-36 | hashCode is a 32-bit Int, built by 37-times steps over the two Int fields and the folded Long |
| IDs.ReadUUID | core/src/se/exuvo/aurora/starsystems/components/IDComponents.kt:26 | reading "a:b:c" back gives a UUID whose fields are in range |
| IDs.NoColon | core/src/se/exuvo/aurora/starsystems/components/IDComponents.kt:26 | the decimal text of a number holds no colon |
| IDs.Joined | core/src/se/exuvo/aurora/starsystems/components/IDComponents.kt:26 | in "a:b:c", with a and b free of colons, the first two colons separate exactly a, b and c |
| IDs.ReadJoined | core/src/se/exuvo/aurora/starsystems/components/IDComponents.kt:26 | "a:b:c" reads back as the three parsed numbers |
| IDs.ReadToString | core/src/se/exuvo/aurora/starsystems/components/IDComponents.kt:24-26 | toString is injective: the printed form reads back as the same UUID |
| IDs.FoldSmall | core/src/se/exuvo/aurora/starsystems/components/IDComponents.kt:32 | folding a small Long leaves it unchanged |
| IDs.HashCollisionAcrossEmpires | core/src/se/exuvo/aurora/starsystems/components/IDComponents.kt:28-34 | two different UUIDs, (0, 0, 38) and (0, 1, 1), have the same hash code |
| IDs.EntityReference.constructor | core/src/se/exuvo/aurora/starsystems/components/IDComponents.kt:41-44 | a new reference has no system, entity id -1 and no UUID |
| IDs.EntityReference.Set | core/src/se/exuvo/aurora/starsystems/components/IDComponents.kt:46-51 | set stores the system, the id and the UUID and returns the reference itself |
| IDs.EntityReference.HashCode | core/src/se/exuvo/aurora/starsystems/components/IDComponents.kt:55 | the reference hashes as its UUID; an unset UUID throws |
| IDs.SetThenHash | core/src/se/exuvo/aurora/starsystems/components/IDComponents.kt:46-55 | after set, the reference's hash is the hash of the UUID it was given |
| IDs.UUIDComponent.constructor | core/src/se/exuvo/aurora/starsystems/components/IDComponents.kt:9-10 | a new component has no UUID yet |
| IDs.UUIDComponent.Set | core/src/se/exuvo/aurora/starsystems/components/IDComponents.kt:12-15 | set stores the UUID and returns the component itself |
| IDs.UUIDComponent.Copy | core/src/se/exuvo/aurora/starsystems/components/IDComponents.kt:19-21 | copy gives the target the same UUID; an unset UUID throws and leaves the target alone |
| IDs.NameComponent.constructor | core/src/se/exuvo/aurora/starsystems/components/IDComponents.kt:58-59 | a new component has no name yet |
| IDs.NameComponent.Set | core/src/se/exuvo/aurora/starsystems/components/IDComponents.kt:61-64 | set stores the name and returns the component itself |
| IDs.NameComponent.Copy | core/src/se/exuvo/aurora/starsystems/components/IDComponents.kt:67-69 | copy gives the target the same name; an unset name throws and leaves the target alone |
| IntervalSystems.Wrap64Near | core/src/se/exuvo/aurora/starsystems/IntervalSystems.kt:52-71 | a value within one Long range of the Long range wraps by one 2^64 step at most |
| IntervalSystems.RearmedIsDue | core/src/se/exuvo/aurora/starsystems/IntervalSystems.kt:49-61 | a last time of time - interval - 1 makes the next check at the same time due, whatever the wrap-around |
| IntervalSystems.RanNotDueAgain | core/src/se/exuvo/aurora/starsystems/IntervalSystems.kt:52-54 | right after a run at a time, a check at the same time is due only for an interval of at most 0 |
| IntervalSystems.TimeInterval.constructor | core/src/se/exuvo/aurora/starsystems/IntervalSystems.kt:46-68 | lastTime starts at time - interval - 1 |
| IntervalSystems.TimeInterval.CheckProcessing | core/src/se/exuvo/aurora/starsystems/IntervalSystems.kt:51-77 | due exactly when time - lastTime (wrapping) reaches the interval, and then the time is recorded |
| IntervalSystems.TimeInterval.RunOnNextUpdate | core/src/se/exuvo/aurora/starsystems/IntervalSystems.kt:60-81 | lastTime becomes time - interval - 1 |
| IntervalSystems.DayBeforeIsDue | core/src/se/exuvo/aurora/starsystems/IntervalSystems.kt:30-42 | a last day of day - 1 makes every day but Int.MIN_VALUE due |
| IntervalSystems.OncePerDay | core/src/se/exuvo/aurora/starsystems/IntervalSystems.kt:17-39 | a day-gated system runs at most once a day and again on any later day |
| IntervalSystems.Daily.constructor | core/src/se/exuvo/aurora/starsystems/IntervalSystems.kt:27-30 | DailySystem starts at the day before |
| IntervalSystems.Daily.Iterating | core/src/se/exuvo/aurora/starsystems/IntervalSystems.kt:12-15 | DailyIteratingSystem starts at -1 |
| IntervalSystems.Daily.CheckProcessing | core/src/se/exuvo/aurora/starsystems/IntervalSystems.kt:17-39 | due exactly on a later day than the last, which is then recorded |
| IntervalSystems.Daily.RunOnNextUpdate | core/src/se/exuvo/aurora/starsystems/IntervalSystems.kt:41-43 | lastDay becomes the day before |
| IntervalSystems.RunTwice | core/src/se/exuvo/aurora/starsystems/IntervalSystems.kt:51-62 | a rearmed gate runs on the next check at the same time and not on the one after |
| StreamListener.RowEnd | core/src/se/exuvo/aurora/utils/OutputStreamListener.kt:20-21 | the last line ends one byte before its line feed as written; the corrected end steps back only over a carriage return that is there |
| StreamListener.Scan | core/src/se/exuvo/aurora/utils/OutputStreamListener.kt:14-30 | the backward scan yields a row start and end with 0 <= start <= end <= count |
| StreamListener.LastRow | core/src/se/exuvo/aurora/utils/OutputStreamListener.kt:14-30 | the row found for the whole buffer lies within it |
| StreamListener.ScanSkips | core/src/se/exuvo/aurora/utils/OutputStreamListener.kt:17-29 | scanning back over bytes that are not line feeds changes nothing |
| StreamListener.ScanLine | core/src/se/exuvo/aurora/utils/OutputStreamListener.kt:17-29 | once a line end is known, the scan stops after the previous line feed, or at the start of the text |
| StreamListener.LastRowLine | core/src/se/exuvo/aurora/utils/OutputStreamListener.kt:11-36 | the row found is the last complete non-empty line without its terminator: for a CR LF line in both programs, and for a bare LF line in the corrected one |
| StreamListener.BareLineFeedRow | core/src/se/exuvo/aurora/utils/OutputStreamListener.kt:20-21 | after "x\ny\n" the source shows "x\n" where the corrected scan shows "y" |
| StreamListener.OutputStreamListener.constructor | core/src/se/exuvo/aurora/utils/OutputStreamListener.kt:6-9 | empty buffer and output, oldCount 0 and oldLastRowIndex -1 |
| StreamListener.OutputStreamListener.Write | core/src/se/exuvo/aurora/utils/OutputStreamListener.kt:6 | written bytes are appended to the buffer |
| StreamListener.OutputStreamListener.Flush | core/src/se/exuvo/aurora/utils/OutputStreamListener.kt:11-42 | with no new bytes nothing changes; otherwise the last row is found, output (what toString returns) becomes buf[start, end) only when start > oldLastRowIndex, which is then updated, and oldCount becomes count |
| Parts.Part.constructor | core/src/se/exuvo/aurora/galactic/ShipParts.kt:5-8 | a part holds its name, kind, cost and identity hash |
| Parts.RefHash | core/src/se/exuvo/aurora/galactic/ShipHull.kt:203 | the PartRef data class hash is a 32-bit Int: 31 times the part's hash plus the index |
| Parts.ListHash | core/src/se/exuvo/aurora/starsystems/components/PowerComponent.kt:47-57 | the hash of a list of references is a 32-bit Int, built by 31-times steps from 1 |
| ResourceMaps.AllListed | core/src/se/exuvo/aurora/galactic/Resources.kt:5-23 | every resource is listed |
| ResourceMaps.Ordinal | core/src/se/exuvo/aurora/galactic/Resources.kt:5-23 | each resource has its declaration position |
| ResourceMaps.AllDistinct | core/src/se/exuvo/aurora/galactic/Resources.kt:5-23 | no resource is listed twice |
| ResourceMaps.Sum | core/src/se/exuvo/aurora/starsystems/components/CargoComponent.kt:234 | values.sum() is the Long-wrapped total of all amounts |
| ResourceMaps.SumOverNonNegative | core/src/se/exuvo/aurora/starsystems/components/CargoComponent.kt:234 | amounts that are never negative have a sum that is never negative |
| ResourceMaps.TotalNonNegative | core/src/se/exuvo/aurora/starsystems/components/CargoComponent.kt:234 | a map of non-negative amounts has a non-negative total |
| ResourceMaps.SumOverZero | core/src/se/exuvo/aurora/starsystems/components/CargoComponent.kt:234 | zero amounts sum to zero |
| ResourceMaps.SumOverUpdate | core/src/se/exuvo/aurora/starsystems/components/CargoComponent.kt:234 | changing one amount changes the sum by the difference |
| ResourceMaps.TotalUpdate | core/src/se/exuvo/aurora/starsystems/components/CargoComponent.kt:234 | setting one amount changes the total by the difference |
| ResourceMaps.TotalZero | core/src/se/exuvo/aurora/starsystems/components/CargoComponent.kt:234 | a map of zero amounts totals zero |
| ResourceMaps.AddKeysValue | core/src/se/exuvo/aurora/galactic/ShipHull.kt:168-176 | merging a part's cost resource by resource gives an entry for a key exactly when either map had one, holding the cost alone for a new key or the Long sum |
| ResourceMaps.AddCostValue | core/src/se/exuvo/aurora/galactic/ShipHull.kt:168-176 | adding a part's cost: an entry exactly where either map has one, the cost alone for a new key, otherwise the Long sum |
| ResourceMaps.Merge | core/src/se/exuvo/aurora/galactic/ShipHull.kt:168-176 | the loop over one part's cost gives AddCost |
| LongTreeMap.Get | core/src/se/exuvo/aurora/starsystems/components/HealthComponents.kt:113-115 | a key is found exactly when some entry has it, and in a sorted map the value is that entry's |
| LongTreeMap.Remove | core/src/se/exuvo/aurora/starsystems/components/HealthComponents.kt:138 | removing keeps the keys sorted and never adds entries (also line 202) |
| LongTreeMap.Put | core/src/se/exuvo/aurora/starsystems/components/HealthComponents.kt:158 | putting keeps the keys sorted, and the smallest key is the smaller of the new key and the old smallest (also lines 204, 216) |
| LongTreeMap.RemoveMembers | core/src/se/exuvo/aurora/starsystems/components/HealthComponents.kt:138 | after remove(k) the entries are exactly the old ones with another key (also line 202) |
| LongTreeMap.PutMembers | core/src/se/exuvo/aurora/starsystems/components/HealthComponents.kt:158 | after put(k, v) the entries are (k, v) and the old ones with another key (also lines 204, 216) |
| LongTreeMap.Ceiling | core/src/se/exuvo/aurora/starsystems/components/HealthComponents.kt:173 | ceilingEntry: the first position whose key is at least k, every earlier key being smaller |
| LongTreeMap.Higher | core/src/se/exuvo/aurora/starsystems/components/HealthComponents.kt:183 | higherEntry: the first position whose key is greater than k |
| LongTreeMap.CeilingIsLeast | core/src/se/exuvo/aurora/starsystems/components/HealthComponents.kt:173 | in a sorted map every key from the ceiling on is at least k |
| LongTreeMap.HigherIsNext | core/src/se/exuvo/aurora/starsystems/components/HealthComponents.kt:183 | the entry after key es[i] is the one at position i + 1 |
| LongTreeMap.LastKey | core/src/se/exuvo/aurora/starsystems/components/HealthComponents.kt:148-161 | lastKeyLong is the largest key, and it is a key of the map |
| LongTreeMap.LastKeyOfPut | core/src/se/exuvo/aurora/starsystems/components/HealthComponents.kt:158-161 | after put the last key is the new key if it is larger, otherwise unchanged |
| LongTreeMap.LastKeyOfRemove | core/src/se/exuvo/aurora/starsystems/components/HealthComponents.kt:138-148 | removing a key other than the last keeps the last key |
| GamePlayer.StepsInverse | core/src/se/exuvo/aurora/galactic/Player.kt:26-42 | increase and decrease stay within the steps, undo each other away from the ends, and increase changes nothing only at the last step |
| GamePlayer.SpeedKeepsSign | core/src/se/exuvo/aurora/galactic/Player.kt:31-40 | the new speed keeps the sign of the old one (paused stays paused) and its size is NANO_SECOND / step |
| GamePlayer.DefaultStepsGood | core/src/se/exuvo/aurora/galactic/Player.kt:20 | the default steps are increasing, positive and at most NANO_SECOND |
| GamePlayer.Player.constructor | core/src/se/exuvo/aurora/galactic/Player.kt:11-22 | a new player is at the first step with requested speed NANO_SECOND / 1 |
| GamePlayer.Player.IncreaseSpeed | core/src/se/exuvo/aurora/galactic/Player.kt:26-33 | the index moves up unless at the last step, and the speed becomes NANO_SECOND / step with its sign kept |
| GamePlayer.Player.DecreaseSpeed | core/src/se/exuvo/aurora/galactic/Player.kt:35-42 | the index moves down unless at the first step, and the speed becomes NANO_SECOND / step with its sign kept |
| GamePlayer.Player.PauseSpeed | core/src/se/exuvo/aurora/galactic/Player.kt:44-47 | pausing negates the requested speed and changes nothing else |
| GamePlayer.PauseAndStep | core/src/se/exuvo/aurora/galactic/Player.kt:26-47 | pausing twice, then stepping up and back down, restores the same speed and index |
| Power.PowerScheme.Ordinal | core/src/se/exuvo/aurora/starsystems/components/PowerComponent.kt:83-86 | the ordinal of one of the two schemes is 0 or 1 |
| Power.Lookup | core/src/se/exuvo/aurora/starsystems/components/PowerComponent.kt:87-95 | the value of the first entry whose class matches the part; no match throws InvalidParameterException |
| Power.GetPowerTypeValue | core/src/se/exuvo/aurora/starsystems/components/PowerComponent.kt:87-95 | the loop over the scheme's entries returns what Lookup says |
| Power.PowerTypeRanks | core/src/se/exuvo/aurora/starsystems/components/PowerComponent.kt:83-95 | solar panels rank 1 in both schemes; batteries 2 and reactors 3 when batteries are not charged from reactors, the other way round otherwise; any other part throws |
| Power.RefreshedMatches | core/src/se/exuvo/aurora/starsystems/components/PowerComponent.kt:47-60 | after copy a list hashes like the source list, and it is either the source list or a different list with the same hash |
| Power.CopyKeepsCollidingList | core/src/se/exuvo/aurora/starsystems/components/PowerComponent.kt:47-50 | a target list whose hash collides with the source's is kept, so copy can leave a different list behind |
| Power.PowerComponent.constructor | core/src/se/exuvo/aurora/starsystems/components/PowerComponent.kt:13-22 | a new component: no scheme yet, state changed, zero totals and empty part lists |
| Power.PowerComponent.Set | core/src/se/exuvo/aurora/starsystems/components/PowerComponent.kt:24-28 | set stores the scheme and marks the state changed; nothing else changes |
| Power.PowerComponent.Reset | core/src/se/exuvo/aurora/starsystems/components/PowerComponent.kt:30-38 | reset zeroes the four totals and empties the three part lists, keeping the scheme and the flag |
| Power.PowerComponent.SimpleEquals | core/src/se/exuvo/aurora/starsystems/components/PowerComponent.kt:72-79 | true exactly when scheme, flag and the four totals agree; an unset scheme (lateinit) throws |
| Power.PowerComponent.SimpleCopy | core/src/se/exuvo/aurora/starsystems/components/PowerComponent.kt:63-70 | the scalars are copied, after which simpleEquals holds; the lists are untouched; an unset scheme throws and changes nothing |
| Power.PowerComponent.Copy | core/src/se/exuvo/aurora/starsystems/components/PowerComponent.kt:39-61 | the scalars are copied and each list is replaced by the source's only when their hashes differ |
| Power.PowerComponent.CopyExact | core/src/se/exuvo/aurora/starsystems/components/PowerComponent.kt:39-61 | the copy the list-hash test is meant to give: every list equal to the source's |
| LongRectangles.ProperEdges | core/src/se/exuvo/aurora/utils/RectangleL.java:175 | for a rectangle whose edges fit in a Long, the right and top edges are the exact sums (also lines 200, 207) |
| LongRectangles.ContainsPointInclusive | core/src/se/exuvo/aurora/utils/RectangleL.java:174-176 | contains(x, y) holds exactly for points within the edges, all four edges included, so both corners are inside |
| LongRectangles.ContainsRectStrict | core/src/se/exuvo/aurora/utils/RectangleL.java:193-202 | contains(rect) holds exactly when both corners lie strictly inside; no rectangle contains itself; every point of a contained rectangle is inside the container |
| LongRectangles.OverlapsSymmetric | core/src/se/exuvo/aurora/utils/RectangleL.java:206-208 | overlaps is symmetric |
| LongRectangles.OverlapsSharePoint | core/src/se/exuvo/aurora/utils/RectangleL.java:206-208 | two overlapping rectangles share the point at the larger of their x and y |
| LongRectangles.Include | core/src/se/exuvo/aurora/utils/RectangleL.java:272-278 | one step of the merge loop widens the bounds to take in the point |
| LongRectangles.ToRectEdges | core/src/se/exuvo/aurora/utils/RectangleL.java:279-282 | turning bounds back into a rectangle gives a rectangle with exactly those bounds |
| LongRectangles.MergedSymmetric | core/src/se/exuvo/aurora/utils/RectangleL.java:225-237 | merge(rect) does not depend on which rectangle is merged into which |
| LongRectangles.MergedSmallest | core/src/se/exuvo/aurora/utils/RectangleL.java:225-237 | merge(rect) contains every point of both rectangles and lies within any rectangle containing both sets of corners |
| LongRectangles.ExtendHolds | core/src/se/exuvo/aurora/utils/RectangleL.java:267-278 | the loop's bounds enclose the starting bounds and every point |
| LongRectangles.MergedPointsContains | core/src/se/exuvo/aurora/utils/RectangleL.java:267-284 | merge(vecs) contains every given point and the original rectangle |
| LongRectangles.MergedPointsOneByOne | core/src/se/exuvo/aurora/utils/RectangleL.java:243-284 | merging an array of points is merging them one by one with merge(x, y) |
| LongRectangles.CenteredCenter | core/src/se/exuvo/aurora/utils/RectangleL.java:295-316 | after setCenter(p), getCenter gives p back |
| LongRectangles.CenterInside | core/src/se/exuvo/aurora/utils/RectangleL.java:295-299 | the center of a rectangle lies inside it |
| LongRectangles.AreaPerimeterExact | core/src/se/exuvo/aurora/utils/RectangleL.java:386-392 | with no overflow, area is width*height and perimeter 2*(width+height); the area is 0 exactly when a side is 0 |
| LongRectangles.Parse | core/src/se/exuvo/aurora/utils/RectangleL.java:368-384 | fromString accepts only "[...]" text of four Long fields |
| LongRectangles.ParseFields | core/src/se/exuvo/aurora/utils/RectangleL.java:374-378 | the four parsed fields are Longs |
| LongRectangles.NoComma | core/src/se/exuvo/aurora/utils/RectangleL.java:361 | the decimal text of a number holds no comma |
| LongRectangles.FormatPieces | core/src/se/exuvo/aurora/utils/RectangleL.java:360-362 | toString's text is "[" x "," y "," width "," height "]" with each field at its place |
| LongRectangles.FirstComma | core/src/se/exuvo/aurora/utils/RectangleL.java:369 | the first comma after position 1 ends the x field |
| LongRectangles.SecondComma | core/src/se/exuvo/aurora/utils/RectangleL.java:370 | the next comma ends the y field |
| LongRectangles.ThirdComma | core/src/se/exuvo/aurora/utils/RectangleL.java:371 | the comma after that ends the width field |
| LongRectangles.ParseLayout | core/src/se/exuvo/aurora/utils/RectangleL.java:368-378 | text with that layout and four parsable fields reads back as those fields |
| LongRectangles.ParseFormat | core/src/se/exuvo/aurora/utils/RectangleL.java:360-384 | fromString(toString(r)) restores r |
| LongRectangles.RectangleL.Empty | core/src/se/exuvo/aurora/utils/RectangleL.java:22-24 | the empty rectangle is all zeros |
| LongRectangles.RectangleL.constructor | core/src/se/exuvo/aurora/utils/RectangleL.java:31-36 | the rectangle holds the given fields |
| LongRectangles.RectangleL.Copy | core/src/se/exuvo/aurora/utils/RectangleL.java:40-45 | the copy constructor takes the other rectangle's fields |
| LongRectangles.RectangleL.Set | core/src/se/exuvo/aurora/utils/RectangleL.java:52-59 | set stores the four fields |
| LongRectangles.RectangleL.SetRect | core/src/se/exuvo/aurora/utils/RectangleL.java:213-220 | set(rect) takes the other rectangle's fields |
| LongRectangles.RectangleL.Merge | core/src/se/exuvo/aurora/utils/RectangleL.java:225-237 | merge(rect) becomes Merged, the smallest box around both (MergedSmallest) |
| LongRectangles.RectangleL.MergeXY | core/src/se/exuvo/aurora/utils/RectangleL.java:243-255 | merge(x, y) becomes the box grown to take in the point |
| LongRectangles.RectangleL.MergeVec | core/src/se/exuvo/aurora/utils/RectangleL.java:260-262 | merge(vec) is merge(vec.x, vec.y) |
| LongRectangles.RectangleL.MergeAll | core/src/se/exuvo/aurora/utils/RectangleL.java:267-284 | the loop over the array gives MergedPoints, which contains every point (MergedPointsContains) |
| LongRectangles.RectangleL.GetCenter | core/src/se/exuvo/aurora/utils/RectangleL.java:295-299 | the vector is set to x + width/2, y + height/2 (truncating) |
| LongRectangles.RectangleL.SetCenter | core/src/se/exuvo/aurora/utils/RectangleL.java:305-316 | the rectangle moves so that its center is the given point, keeping its size |
| LongRectangles.RectangleL.FromString | core/src/se/exuvo/aurora/utils/RectangleL.java:368-384 | a well-formed string sets the rectangle to the parsed fields; anything else throws and leaves it as it was |
| LongRectangles.EqualsIsValue | core/src/se/exuvo/aurora/utils/RectangleL.java:404-414 | equals holds exactly when all four fields agree |
| Research.ParentsAreTopLevel | core/src/se/exuvo/aurora/galactic/Research.kt:25-79 | a sub-category's parent is one of the top-level categories, which have no parent |
| Research.LastSpace | core/src/se/exuvo/aurora/galactic/Research.kt:170 | the position of the last space, or -1 when there is none |
| Research.LastToken | core/src/se/exuvo/aurora/galactic/Research.kt:170-171 | the last space-separated token: it holds no space, ends the code, and is preceded by a space unless it is the whole code |
| Research.Number | core/src/se/exuvo/aurora/galactic/Research.kt:169-173 | getNumber: the decimal Int the last token parses to; a token that does not parse makes the !! throw a NullPointerException |
| Research.LastTokenOfNumber | core/src/se/exuvo/aurora/galactic/Research.kt:170 | the last token of "prefix N" is the text of N |
| Research.LastSpaceAppend | core/src/se/exuvo/aurora/galactic/Research.kt:170 | appending space-free text does not move the last space |
| Research.NumberOf | core/src/se/exuvo/aurora/galactic/Research.kt:169-173 | getNumber of "prefix N" is N for every Int N |
| Research.PreviousCodeOfNumber | core/src/se/exuvo/aurora/galactic/Research.kt:356-361 | the automatic requirement of "prefix N" is named "prefix N-1", and that code's number is N-1 |
| Research.PreviousOf | core/src/se/exuvo/aurora/galactic/Research.kt:356-361 | the automatic requirement name of "prefix N" is "prefix N-1" |
| Research.NoNumberNoPrevious | core/src/se/exuvo/aurora/galactic/Research.kt:357-359 | a code without a trailing number has no automatic requirement |
| Research.Technology.constructor | core/src/se/exuvo/aurora/galactic/Research.kt:147-167 | the init block adds the technology to its category's code map (replacing any earlier one with that code) and appends it to the category's list, creating the list when it is missing; other categories are unchanged |
| Research.Registered | core/src/se/exuvo/aurora/galactic/Research.kt:157-167 | registration adds the category if it is new, maps the code to the technology and appends it to the sorted list, leaving other categories alone |
| Research.RegisteredTechs | core/src/se/exuvo/aurora/galactic/Research.kt:157-167 | registering adds exactly the new technology to the set of registered technologies |
| Research.RegisteredValid | core/src/se/exuvo/aurora/galactic/Research.kt:157-167 | registering a new technology keeps the registry consistent: every listed technology is in its own category's map under its code |
| Research.GetTech | core/src/se/exuvo/aurora/galactic/Research.kt:377-387 | getTech returns null exactly when no category in the registry maps the code |
| Research.FindIn | core/src/se/exuvo/aurora/galactic/Research.kt:378-386 | the search over categories fails exactly when none of them maps the code |
| Research.FindInFirst | core/src/se/exuvo/aurora/galactic/Research.kt:378-386 | a found technology comes from the first category, in iteration order, that maps the code |
| Research.GetTechComplete | core/src/se/exuvo/aurora/galactic/Research.kt:377-387 | in a consistent registry getTech finds a technology whenever any category maps the code |
| Research.Resolve | core/src/se/exuvo/aurora/galactic/Research.kt:348-353 | every requirement name resolves, in order, exactly when getTech finds each of them |
| Research.ResolveStep | core/src/se/exuvo/aurora/galactic/Research.kt:349-352 | the names are resolved one by one, and one unknown name makes the whole resolution fail |
| Research.Auto | core/src/se/exuvo/aurora/galactic/Research.kt:355-368 | at most one automatic requirement, present exactly when the "N-1" code names a registered technology |
| Research.Link | core/src/se/exuvo/aurora/galactic/Research.kt:347-368 | linking one technology succeeds exactly when its named requirements all exist, and appends them followed by the automatic requirement |
| Research.LinkNamed | core/src/se/exuvo/aurora/galactic/Research.kt:348-353 | the explicit requirements are appended in order; an unknown name throws |
| Research.LinkList | core/src/se/exuvo/aurora/galactic/Research.kt:347-369 | linking a category's list succeeds exactly when every technology in it has all its named requirements, each then linked once |
| Research.ListsOwnTechs | core/src/se/exuvo/aurora/galactic/Research.kt:157-167 | every listed technology belongs to that category and is registered, and every category of a technology is in the iteration order |
| Research.Registry.constructor | core/src/se/exuvo/aurora/galactic/Research.kt:176 | the registry starts empty |
| Research.Registry.Add | core/src/se/exuvo/aurora/galactic/Research.kt:157-167 | registering a technology updates the registry as Registered says and keeps it consistent |
| Research.Registry.LinkAll | core/src/se/exuvo/aurora/galactic/Research.kt:343-375 | initTech's linking succeeds exactly when every technology's named requirements exist, and then each technology's requirements gain exactly its named and automatic requirements |
| Research.ResearchJob.constructor | core/src/se/exuvo/aurora/galactic/Research.kt:6-12 | a job starts with no progress and needs the points of its kind |
| Research.JobPoints | core/src/se/exuvo/aurora/galactic/Research.kt:10-12 | a discovery needs 1000 points, a technology job the technology's points, a design job its given points |
| Settings.ValueOf | core/src/se/exuvo/settings/Setting.java:22-31 | a code is mapped to the type carrying it; a code no type carries is an IllegalArgumentException |
| Settings.ParseValue | core/src/se/exuvo/settings/Setting.java:58-77 | the parsing constructor keeps a string, reads a boolean with parseBoolean, fails with NumberFormatException exactly on a null or malformed integer and with the float parser's error on a bad float; the value has the setting's type |
| Settings.ValueTextRoundTrip | core/src/se/exuvo/settings/Setting.java:58-77 | the text getValue prints for a non-null value parses back to the same value for its type (also lines 119-137) |
| Settings.ValueTextRoundTrips | core/src/se/exuvo/settings/Setting.java:58-77 | the same round trip for every float parser that reads back what the float printer wrote (also lines 119-137) |
| Settings.Setting.FromString | core/src/se/exuvo/settings/Setting.java:34-38 | the setting has type STRING, the name and the (possibly null) value |
| Settings.Setting.FromBoolean | core/src/se/exuvo/settings/Setting.java:40-44 | the setting has type BOOLEAN, the name and the (possibly null) value |
| Settings.Setting.FromInteger | core/src/se/exuvo/settings/Setting.java:46-50 | the setting has type INTEGER, the name and the (possibly null) value |
| Settings.Setting.FromFloat | core/src/se/exuvo/settings/Setting.java:52-56 | the setting has type FLOAT, the name and the (possibly null) value |
| Settings.Setting.Parsed | core/src/se/exuvo/settings/Setting.java:58-77 | a setting holds a value already parsed for its type |
| Settings.Parse | core/src/se/exuvo/settings/Setting.java:58-77 | the (name, string, type) constructor fails exactly when parsing fails, with the parser's exception, and otherwise holds the parsed value under that type |
| Settings.Setting.GetStr | core/src/se/exuvo/settings/Setting.java:87-93 | the value succeeds exactly for a STRING setting; any other type is an InvalidTypeException |
| Settings.Setting.GetBol | core/src/se/exuvo/settings/Setting.java:95-101 | the value succeeds exactly for a BOOLEAN setting; any other type is an InvalidTypeException |
| Settings.Setting.GetInt | core/src/se/exuvo/settings/Setting.java:103-109 | the value succeeds exactly for an INTEGER setting, and is an int; any other type is an InvalidTypeException |
| Settings.Setting.GetFloat | core/src/se/exuvo/settings/Setting.java:111-117 | the value succeeds exactly for a FLOAT setting; any other type is an InvalidTypeException |
| Settings.Setting.GetValue | core/src/se/exuvo/settings/Setting.java:119-137 | "null" for a null value, the string itself for a string, and otherwise a text the parsing constructor reads back as the same value |
| Settings.Setting.SetStr | core/src/se/exuvo/settings/Setting.java:139-145 | on a STRING setting the value is stored and getStr returns it; on any other type an InvalidTypeException and the value is unchanged |
| Settings.Setting.SetBol | core/src/se/exuvo/settings/Setting.java:147-153 | on a BOOLEAN setting the value is stored and getBol returns it; otherwise InvalidTypeException and no change |
| Settings.Setting.SetInt | core/src/se/exuvo/settings/Setting.java:155-161 | on an INTEGER setting the value is stored and getInt returns it; otherwise InvalidTypeException and no change |
| Settings.Setting.SetFloat | core/src/se/exuvo/settings/Setting.java:163-169 | on a FLOAT setting the value is stored and getFloat returns it; otherwise InvalidTypeException and no change |
| Hulls.IndexOf | core/src/se/exuvo/aurora/galactic/ShipHull.kt:82-86 | parts.indexOf: -1 exactly when the part is absent, otherwise the first position that holds it |
| Hulls.CostsKeys | core/src/se/exuvo/aurora/galactic/ShipHull.kt:164-179 | getCost has an entry for a resource exactly when some part's cost names it |
| Hulls.CostsMeaning | core/src/se/exuvo/aurora/galactic/ShipHull.kt:164-179 | each getCost entry is the 64-bit wrapped sum of that resource over all parts |
| Hulls.NoCostNoSum | core/src/se/exuvo/aurora/galactic/ShipHull.kt:167-177 | a resource no part costs contributes a zero sum |
| Hulls.HullHash | core/src/se/exuvo/aurora/galactic/ShipHull.kt:191-198 | the lazily computed hash is a 32-bit Int |
| Hulls.HashStep | core/src/se/exuvo/aurora/galactic/ShipHull.kt:192-196 | wrapping the running hash between steps does not change the wrapped result |
| Hulls.HullHashPolynomial | core/src/se/exuvo/aurora/galactic/ShipHull.kt:191-198 | the hash is the low 32 bits of the exact base-37 polynomial over 1, name.hashCode(), designDay, armorLayers and the power scheme ordinal |
| Hulls.DerivedLabel | core/src/se/exuvo/aurora/galactic/ShipHull.kt:181-189 | a derived design's label is the parent's "name year" label followed by "-" and the last two digits of its own year |
| Hulls.RemoveLeavesStaleIndex | core/src/se/exuvo/aurora/galactic/ShipHull.kt:81-90 | removing a part that is not last leaves the next PartRef recording its old position, so the references stop being indexed |
| Hulls.Renumber | core/src/se/exuvo/aurora/galactic/ShipHull.kt:78-89 | the references from a position on are rebuilt as PartRef(part, position); the earlier ones stay |
| Hulls.ShipHull.constructor | core/src/se/exuvo/aurora/galactic/ShipHull.kt:15-34 | a new design: no parts, empty name, day 0, civilian yard, one armor layer of 100 HP blocks, solar-battery-reactor power, empty preferences, no parent and no derivatives |
| Hulls.ShipHull.Derived | core/src/se/exuvo/aurora/galactic/ShipHull.kt:36-67 | the copy constructor takes the parent's name, hull class, yard, armor, power scheme, parts in order with fresh indexed references and all preference maps; the design day is 0, locked and obsolete are false and the comment empty; the new design is appended to the parent's derivatives |
| Hulls.ShipHull.AddPart | core/src/se/exuvo/aurora/galactic/ShipHull.kt:76-79 | the part is appended with a reference to its position, and indexed references stay indexed |
| Hulls.ShipHull.RemovePart | core/src/se/exuvo/aurora/galactic/ShipHull.kt:81-90 | an absent part fails with IllegalArgumentException and changes nothing; otherwise the first occurrence and its reference are removed, the others kept as they were |
| Hulls.ShipHull.RemovePartReindexed | core/src/se/exuvo/aurora/galactic/ShipHull.kt:81-90 | the same removal, with the later references renumbered so that indexed references stay indexed |
| Hulls.ShipHull.Get | core/src/se/exuvo/aurora/galactic/ShipHull.kt:71 | get(index) gives the reference at that position (naming the part there and, when indexed, its own position) and fails out of bounds |
| Hulls.ShipHull.GetCost | core/src/se/exuvo/aurora/galactic/ShipHull.kt:164-179 | the cost map is the per-resource sum of the parts' costs (see CostsKeys and CostsMeaning) |
| Hulls.ShipHull.GetPreferredCargoMass | core/src/se/exuvo/aurora/galactic/ShipHull.kt:120-128 | the 64-bit wrapped total of the preferred cargo amounts |
| Hulls.ShipHull.HashCode | core/src/se/exuvo/aurora/galactic/ShipHull.kt:191-200 | the first call computes and stores the hash of name, designDay, armorLayers and power scheme; later calls return the stored value; nothing else changes |
| StarSystems.Repeat | core/src/se/exuvo/aurora/starsystems/StarSystem.kt:747-766 | n copies of the delta, one per world.process call of a loop |
| StarSystems.SumRepeat | core/src/se/exuvo/aurora/starsystems/StarSystem.kt:747-751 | n steps of delta x simulate x * n time |
| StarSystems.CoarseTotal | core/src/se/exuvo/aurora/starsystems/StarSystem.kt:753-771 | the coarse steps and the single steps of a long tick add up to exactly the tick |
| StarSystems.PlanTotal | core/src/se/exuvo/aurora/starsystems/StarSystem.kt:743-771 | every tick's sub-steps add up to the tick (0 for a non-positive one) and each sub-step is at least 1 |
| StarSystems.PlanBounded | core/src/se/exuvo/aurora/starsystems/StarSystem.kt:755-771 | a long calm tick takes fewer than 100 coarse steps, a remainder below the coarse delta, and fewer than 100 + delta world calls in all |
| StarSystems.RemoveFirst | core/src/se/exuvo/aurora/starsystems/StarSystem.kt:609 | removeValue shortens the bag by one when the ship is in it and leaves it as it is otherwise |
| StarSystems.RemoveFirstCount | core/src/se/exuvo/aurora/starsystems/StarSystem.kt:609 | removeValue takes out exactly one occurrence |
| StarSystems.RegisterUnregister | core/src/se/exuvo/aurora/starsystems/StarSystem.kt:570-612 | registering a ship and then unregistering it leaves its bucket holding the same ships |
| StarSystems.RegisterUnregisterElsewhere | core/src/se/exuvo/aurora/starsystems/StarSystem.kt:570-612 | registering and unregistering touch no other empire's or mass's bucket |
| StarSystems.Failing | core/src/se/exuvo/aurora/starsystems/StarSystem.kt:727-731 | the commands recorded as failed are commands of the queue whose apply throws |
| StarSystems.StarSystem.constructor | core/src/se/exuvo/aurora/starsystems/StarSystem.kt:132-153 | the id generator starts at 1, no skip requested, an empty queue, registry and world |
| StarSystems.StarSystem.GetNewEntityID | core/src/se/exuvo/aurora/starsystems/StarSystem.kt:781-783 | returns the generator and advances it by one (Long wrap); below Long.MAX_VALUE ids strictly increase |
| StarSystems.StarSystem.RegisterShip | core/src/se/exuvo/aurora/starsystems/StarSystem.kt:570-589 | the ship is appended to its empire's bucket for its empty mass, which is created when missing |
| StarSystems.StarSystem.UnregisterShip | core/src/se/exuvo/aurora/starsystems/StarSystem.kt:591-612 | a missing empire, a missing mass bucket and an unregistered ship are each reported (logged) and change nothing; otherwise the ship's first entry leaves its bucket |
| StarSystems.StarSystem.IsEntityReferenceValid | core/src/se/exuvo/aurora/starsystems/StarSystem.kt:639-648 | true exactly for a reference of this system to an active entity whose UUID hash code equals the stored UUID's; an unset system, a missing UUID component or an unset UUID throws |
| StarSystems.StarSystem.IsEntityReferenceValidExact | core/src/se/exuvo/aurora/starsystems/StarSystem.kt:639-648 | the corrected check: true exactly when the UUIDs themselves are equal, with the same error cases |
| StarSystems.StarSystem.ExactImpliesValid | core/src/se/exuvo/aurora/starsystems/StarSystem.kt:639-648 | the hash-code check accepts every reference the exact check accepts and fails exactly where it fails |
| StarSystems.StarSystem.Process | core/src/se/exuvo/aurora/starsystems/StarSystem.kt:745-762 | n world steps of the given delta are recorded in order and the world's delta is left at it |
| StarSystems.StarSystem.DrainCommands | core/src/se/exuvo/aurora/starsystems/StarSystem.kt:723-733 | the queue ends empty, every queued command was applied in order, and exactly the throwing ones were logged |
| StarSystems.StarSystem.ClearShadow | core/src/se/exuvo/aurora/starsystems/StarSystem.kt:705-720 | added and deleted are cleared, the quadtree flags reset, and changed is cleared unless a skip was requested, which is then consumed |
| StarSystems.StarSystem.ProcessTick | core/src/se/exuvo/aurora/starsystems/StarSystem.kt:743-773 | the world runs exactly the planned sub-steps and its delta ends at 1 |
| StarSystems.StarSystem.Update | core/src/se/exuvo/aurora/starsystems/StarSystem.kt:700-779 | one tick: the shadow reset, the full command drain, the planned sub-steps; the registry, id generator and entities are untouched |
| StarSystems.StaleReferenceAccepted | core/src/se/exuvo/aurora/starsystems/StarSystem.kt:647 | a reference made when entity 5 had UUID (0, 0, 38) is still accepted after it got UUID (0, 1, 1): both hash to 50691; the exact check rejects it |
| TimedComponents.KmRounds | core/src/se/exuvo/aurora/starsystems/components/TimedComponents.kt:104-110 | away from the ends of the Long range, getXinKM/getYinKM round metres to the nearest kilometre, halves away from zero |
| TimedComponents.KmOdd | core/src/se/exuvo/aurora/starsystems/components/TimedComponents.kt:104-110 | the kilometres of -m are minus those of m |
| TimedComponents.CoastBetween | core/src/se/exuvo/aurora/starsystems/components/TimedComponents.kt:323-333 | between two known values at non-negative times, a COAST interpolation passes the guard, keeps the cached velocity and acceleration and puts the position inside the box spanned by the two end positions |
| TimedComponents.GuardHolds | core/src/se/exuvo/aurora/starsystems/components/TimedComponents.kt:323-328 | for a time strictly between the two known times and any approach but BALLISTIC, interpolate does not throw |
| TimedComponents.TimedMovement.constructor | core/src/se/exuvo/aurora/starsystems/components/TimedComponents.kt:113-117 | standing still at time 0 with nothing predicted, cached, aimed or accelerating |
| TimedComponents.TimedMovement.Set | core/src/se/exuvo/aurora/starsystems/components/TimedComponents.kt:39-53 | a time before the known one is ignored; otherwise the known value and time are replaced and a prediction at or before the new time is dropped; nothing else changes (also lines 125-162) |
| TimedComponents.TimedMovement.Predict | core/src/se/exuvo/aurora/starsystems/components/TimedComponents.kt:55-75 | a prediction is accepted exactly when it lies after the known time, and then becomes the next value; a refused one clears next |
| TimedComponents.TimedMovement.SetPredictionCoast | core/src/se/exuvo/aurora/starsystems/components/TimedComponents.kt:228-262 | accepted exactly after the known time; then the approach is COAST with the given aim and no accelerations, and a missing cached value starts at the prediction's velocity and time -1; refused, only next is cleared |
| TimedComponents.TimedMovement.SetPredictionAccelerating | core/src/se/exuvo/aurora/starsystems/components/TimedComponents.kt:264-304 | accepted exactly after the known time; then the approach, accelerations and aim are recorded, a missing cached value starts still at time -1, and BALLISTIC sets the cached acceleration to the aimed average; refused, only next is cleared |
| TimedComponents.TimedMovement.Reset | core/src/se/exuvo/aurora/starsystems/components/TimedComponents.kt:164-180 | still at time 0, nothing predicted, and an existing cached value zeroed at time 0 |
| TimedComponents.TimedMovement.Interpolate | core/src/se/exuvo/aurora/starsystems/components/TimedComponents.kt:306-363 | no cached or next value is a NullPointerException; otherwise the cached value becomes InterpolateStep's, which throws when the time travelled exceeds the travel time or the approach is unknown |
| TimedComponents.TimedMovement.Get | core/src/se/exuvo/aurora/starsystems/components/TimedComponents.kt:79-99 | at or before the known time, or with no prediction, the known value; at or after the prediction, the prediction; between them the cached value, interpolated and stamped with the time unless it already is; the result's time is the time clamped to the known ones, and with non-negative times and no BALLISTIC approach it never fails |
| TimedComponents.SetThenGet | core/src/se/exuvo/aurora/starsystems/components/TimedComponents.kt:39-53 | a value just set is what get returns at its time (also lines 79-99) |
| TimedComponents.PredictThenGet | core/src/se/exuvo/aurora/starsystems/components/TimedComponents.kt:55-99 | an accepted prediction is what get returns at its time |
| Units.DecimalRoundTrip | core/src/se/exuvo/aurora/utils/Units.java:25-41 | a "%d.%0Nd" text with a fraction below 10^N reads back as its whole and fraction parts |
| Units.NanoToStringExact | core/src/se/exuvo/aurora/utils/Units.java:20-26 | nanoToString's milliseconds and six-digit fraction add back up to the nanoseconds |
| Units.NanoToStringParts | core/src/se/exuvo/aurora/utils/Units.java:20-26 | for a non-negative time whose milliseconds fit an Int, the Int casts change nothing and the text is the milliseconds, a dot and the nanoseconds left as six digits, then "ms" |
| Units.NanoToMicroStringExact | core/src/se/exuvo/aurora/utils/Units.java:28-34 | nanoToMicroString's microseconds and three-digit fraction add back up to the nanoseconds |
| Units.MilliToStringMisreads | core/src/se/exuvo/aurora/utils/Units.java:36-42 | as written, 1500 milliseconds print as "1.000500s", which reads as 1.0005 seconds |
| Units.DecimalText1500 | core/src/se/exuvo/aurora/utils/Units.java:41 | one second and 500 print with six fraction digits as "1.000500s" |
| Units.MilliToString1500 | core/src/se/exuvo/aurora/utils/Units.java:38-41 | 1500 milliseconds split into 1 second and 500 |
| Units.MilliToStringExact | core/src/se/exuvo/aurora/utils/Units.java:36-42 | with the milliseconds printed as three digits, the text reads back as exactly the milliseconds given |
| Units.SecondsToStringClock | core/src/se/exuvo/aurora/utils/Units.java:44-51 | secondsToString is the time of day, "hh:mm:ss" of the seconds modulo a day |
| Units.ClockFields | core/src/se/exuvo/aurora/utils/Units.java:46-48 | for non-negative times the truncating divisions give seconds, minutes and hours that add up to the time modulo a day |
| Units.DaysToDateRoundTrip | core/src/se/exuvo/aurora/utils/Units.java:168-173 | within the four-digit years, daysToDate reads back as the same day number |
| Units.DateStartsWithYear | core/src/se/exuvo/aurora/utils/Units.java:168-180 | a date starts with its daysToYear text |
| Units.SubYearEndsYear | core/src/se/exuvo/aurora/utils/Units.java:175-187 | daysToSubYear is the last two digits of daysToYear |
| Units.YearFields | core/src/se/exuvo/aurora/utils/Units.java:175-187 | for a non-negative day count the year is 2100 plus the whole years, padded to four digits, and the sub-year those whole years modulo 100, padded to two |
| Units.LastTwoOfYear | core/src/se/exuvo/aurora/utils/Units.java:179-186 | the year modulo 100, zero-padded to two digits, is the last two digits of 2100 + year |
| Units.FourDigits | core/src/se/exuvo/aurora/utils/Units.java:179 | a four-digit year prints as its four digits |
| Units.TwoDigits | core/src/se/exuvo/aurora/utils/Units.java:186 | a number below 100 prints as two digits |
| Units.DaysToRemainingSplits | core/src/se/exuvo/aurora/utils/Units.java:154-166 | more than a year prints as whole years and the remaining days below 365, which add back up to the days |
| Units.MetricParts | core/src/se/exuvo/aurora/utils/Units.java:53-152 | every value falls into one of the six ranges |
| Units.MetricTruncates | core/src/se/exuvo/aurora/utils/Units.java:53-152 | below a thousand the value prints as is; each middle range prints the whole units and two truncated hundredths that bracket the value; the top range prints whole units |
| Units.Hundredths | core/src/se/exuvo/aurora/utils/Units.java:59-68 | x / d and x % d / 10 / e are the whole units and the truncated hundredths of x in units of d |
| Units.ScalesConsistent | core/src/se/exuvo/aurora/utils/Units.java:53-130 | power, capacity and mass name each range after the divisor they print with |
| Units.PowerToString | core/src/se/exuvo/aurora/utils/Units.java:53-73 | below a kilowatt the watts print as is with " W"; from a thousand terawatts up the whole terawatts print with " TW" |
| Units.CapacityToString | core/src/se/exuvo/aurora/utils/Units.java:75-95 | below a kilojoule the joules print as is with " J"; from a thousand terajoules up the whole terajoules print with " TJ" |
| Units.MassToString | core/src/se/exuvo/aurora/utils/Units.java:110-130 | below a tonne the kilograms print as is with " kg"; from a thousand petagrams up the whole petagrams print with " Pg" |
| Units.DistanceOverstates | core/src/se/exuvo/aurora/utils/Units.java:132-152 | as written the top range divides by 10^12 but says Pm, so 2 * 10^15 metres print as "2000 Pm"; with the divisor's own unit they print as "2000 Tm" |
| Units.VolumeToStringLitres | core/src/se/exuvo/aurora/utils/Units.java:97-108 | between a litre and a cubic metre the printed litres and hundredths bracket the volume |
| Text.ParseInt | core/src/se/exuvo/settings/Setting.java:67-68 | a parsed value is an Int and comes from a non-empty text; anything else is a NumberFormatException (None) |
| Text.ParseLong | core/src/se/exuvo/aurora/utils/Vector2L.java:326-331 | a parsed value is a Long and comes from a non-empty text; anything else is a NumberFormatException (None) |
| Text.ParseSignedToString | core/src/se/exuvo/aurora/utils/Vector2L.java:326-331 | a number printed in decimal parses back to itself whenever it lies in the range asked for |
| Text.ParseLongToString | core/src/se/exuvo/aurora/utils/Vector2L.java:326-331 | every Long printed in decimal reads back through Long.parseLong as itself |
| Text.StringHash | core/src/se/exuvo/aurora/galactic/ShipHull.kt:193 | String.hashCode, the 31-polynomial over the characters, is always an Int |
| LongVectors.Plus | core/src/se/exuvo/aurora/utils/Vector2L.java:133-156 | add is the componentwise sum, wrapped to a Long |
| LongVectors.Minus | core/src/se/exuvo/aurora/utils/Vector2L.java:102-125 | sub is the componentwise difference, wrapped to a Long |
| LongVectors.Times | core/src/se/exuvo/aurora/utils/Vector2L.java:212-222 | scl(x, y) and scl(vec) multiply componentwise, wrapped to a Long |
| LongVectors.Scaled | core/src/se/exuvo/aurora/utils/Vector2L.java:184-188 | scl(long) is the componentwise product with (s, s) |
| LongVectors.Quotient | core/src/se/exuvo/aurora/utils/Vector2L.java:196-200 | div(long) divides each component, truncating, with a Long result |
| LongVectors.PlusMinusInverse | core/src/se/exuvo/aurora/utils/Vector2L.java:102-156 | sub undoes add and add undoes sub, even with wrap-around |
| LongVectors.DivFits | core/src/se/exuvo/aurora/utils/Vector2L.java:109 | a Long divided by a non-zero Long, other than LONG_MIN / -1, is a Long no larger in size than the dividend (also lines 140, 197) |
| LongVectors.QuotientTruncates | core/src/se/exuvo/aurora/utils/Vector2L.java:196-200 | each component is the truncating quotient, no larger in size than the dividend; LONG_MIN / -1 stays LONG_MIN |
| LongVectors.DotCrsSymmetry | core/src/se/exuvo/aurora/utils/Vector2L.java:164-182 | dot is symmetric and never negative on a vector with itself; crs is antisymmetric and zero on a vector with itself (also lines 344-365) |
| LongVectors.Rotated | core/src/se/exuvo/aurora/utils/Vector2L.java:486-496 | rotate90 keeps a Long vector a Long vector |
| LongVectors.RotatedInverse | core/src/se/exuvo/aurora/utils/Vector2L.java:486-496 | rotating one way and back is the identity, and four rotations in the same direction are the identity |
| LongVectors.RotatedPerpendicular | core/src/se/exuvo/aurora/utils/Vector2L.java:486-496 | a rotated vector is perpendicular to the original, has the same squared length, and its cross product has the sign of the direction |
| LongVectors.Lerped | core/src/se/exuvo/aurora/utils/Vector2L.java:505-532 | lerp(target, current, max) divides by max, so max = 0 throws; otherwise the result is a Long vector |
| LongVectors.LerpCoordinate | core/src/se/exuvo/aurora/utils/Vector2L.java:505-529 | with 0 <= current <= max, each coordinate lies between the start and the target, the start at 0 and the target at max |
| LongVectors.LerpBetween | core/src/se/exuvo/aurora/utils/Vector2L.java:505-532 | the interpolated vector lies in the box between start and target and hits each end exactly |
| LongVectors.AbsLongNegated | core/src/se/exuvo/aurora/utils/Vector2L.java:264-265 | FastMath.abs of a negated Long difference equals that of the difference |
| LongVectors.DstAproxSymmetric | core/src/se/exuvo/aurora/utils/Vector2L.java:263-285 | dstAprox(a, b) equals dstAprox(b, a) |
| LongVectors.ApproxExact | core/src/se/exuvo/aurora/utils/Vector2L.java:267-284 | with no overflow, the result is (1007*max + 441*min, minus 40*max when max < 16*min, plus 512) / 1024 |
| LongVectors.ApproxBounds | core/src/se/exuvo/aurora/utils/Vector2L.java:263-285 | the approximation lies between about 0.94 and 1.41 times the larger difference |
| LongVectors.DstAproxBounds | core/src/se/exuvo/aurora/utils/Vector2L.java:263-285 | dstAprox is within those bounds of the larger coordinate difference, and 0 from a point to itself |
| LongVectors.Parse | core/src/se/exuvo/aurora/utils/Vector2L.java:324-336 | fromString accepts only "(...)" text of two Long fields |
| LongVectors.ParseFormat | core/src/se/exuvo/aurora/utils/Vector2L.java:313-336 | fromString(toString(v)) restores v |
| LongVectors.Vector2L.constructor | core/src/se/exuvo/aurora/utils/Vector2L.java:57-60 | the vector holds the given coordinates |
| LongVectors.Vector2L.Set | core/src/se/exuvo/aurora/utils/Vector2L.java:83-87 | set(v) takes the other vector's coordinates |
| LongVectors.Vector2L.SetXY | core/src/se/exuvo/aurora/utils/Vector2L.java:96-100 | set(x, y) stores the coordinates |
| LongVectors.Vector2L.Add | core/src/se/exuvo/aurora/utils/Vector2L.java:133-137 | the vector becomes Plus of itself and v |
| LongVectors.Vector2L.AddXY | core/src/se/exuvo/aurora/utils/Vector2L.java:152-156 | the vector becomes Plus of itself and (x, y) |
| LongVectors.Vector2L.Sub | core/src/se/exuvo/aurora/utils/Vector2L.java:102-106 | the vector becomes Minus of itself and v |
| LongVectors.Vector2L.SubXY | core/src/se/exuvo/aurora/utils/Vector2L.java:121-125 | the vector becomes Minus of itself and (x, y) |
| LongVectors.Vector2L.AddDiv | core/src/se/exuvo/aurora/utils/Vector2L.java:139-143 | v is divided first, then added; a zero divisor throws and changes nothing |
| LongVectors.Vector2L.AddDivXY | core/src/se/exuvo/aurora/utils/Vector2L.java:158-162 | (x, y) is divided first, then added; a zero divisor throws and changes nothing |
| LongVectors.Vector2L.SubDiv | core/src/se/exuvo/aurora/utils/Vector2L.java:108-112 | v is divided first, then subtracted; a zero divisor throws and changes nothing |
| LongVectors.Vector2L.SubDivXY | core/src/se/exuvo/aurora/utils/Vector2L.java:127-131 | (x, y) is divided first, then subtracted; a zero divisor throws and changes nothing |
| LongVectors.Vector2L.Scl | core/src/se/exuvo/aurora/utils/Vector2L.java:184-188 | both coordinates are multiplied by the scalar |
| LongVectors.Vector2L.SclXY | core/src/se/exuvo/aurora/utils/Vector2L.java:212-216 | the coordinates are multiplied by x and y |
| LongVectors.Vector2L.Div | core/src/se/exuvo/aurora/utils/Vector2L.java:196-200 | both coordinates are divided, truncating; a zero divider throws and changes nothing |
| LongVectors.Vector2L.MulAdd | core/src/se/exuvo/aurora/utils/Vector2L.java:224-228 | vec times the scalar is added |
| LongVectors.Vector2L.MulAddVec | core/src/se/exuvo/aurora/utils/Vector2L.java:230-234 | vec times mulVec, componentwise, is added |
| LongVectors.Vector2L.Rotate90 | core/src/se/exuvo/aurora/utils/Vector2L.java:486-496 | the vector becomes its quarter-turn rotation |
| LongVectors.Vector2L.Lerp | core/src/se/exuvo/aurora/utils/Vector2L.java:505-532 | the vector becomes the exact interpolation, or max = 0 throws and changes nothing |
| LongVectors.Vector2L.SetZero | core/src/se/exuvo/aurora/utils/Vector2L.java:602-606 | after setZero both coordinates are 0 and isZero holds |
| LongVectors.Vector2L.FromString | core/src/se/exuvo/aurora/utils/Vector2L.java:324-336 | a well-formed string sets the coordinates; anything else throws and leaves the vector as it was |
| LongVectors.EqualsIsValue | core/src/se/exuvo/aurora/utils/Vector2L.java:547-556 | equals holds exactly when both coordinates agree |
| LongVectors.CopyThroughString | core/src/se/exuvo/aurora/utils/Vector2L.java:313-336 | copying a vector through toString and fromString gives an equal vector |
| WeaponSystem.ExpectedFullAt | core/src/se/exuvo/aurora/starsystems/systems/WeaponSystem.kt:263-273 | a zero requested power divides by zero; otherwise the result is a Long |
| WeaponSystem.ExpectedFullAtIsCeiling | core/src/se/exuvo/aurora/starsystems/systems/WeaponSystem.kt:263-273 | without overflow the ticks until full are the ceiling of the missing charge over the power: enough ticks, and one fewer is not enough; a capacitor not yet full is full strictly later |
| WeaponSystem.ShieldBlocks | core/src/se/exuvo/aurora/starsystems/systems/WeaponSystem.kt:830-844 | Blocked, what a raised shield blocks, is at most its hit points and the energy; the shield loses exactly that, lets at least half of a kinetic hit through and stops any other hit exactly when it can hold all of it |
| WeaponSystem.DrainInOrder | core/src/se/exuvo/aurora/starsystems/systems/WeaponSystem.kt:849-862 | Drain never makes a charge negative or larger, and drains a later shield only after every earlier one is empty |
| WeaponSystem.DrainSpends | core/src/se/exuvo/aurora/starsystems/systems/WeaponSystem.kt:849-862 | Drain takes exactly min(blocked, the total charge) from the charges |
| WeaponSystem.DrainStep | core/src/se/exuvo/aurora/starsystems/systems/WeaponSystem.kt:852-860 | one turn of the charge loop: the first shield loses min(charge, blocked), and the loop stops when nothing is left to drain |
| WeaponSystem.DrainCharges | core/src/se/exuvo/aurora/starsystems/systems/WeaponSystem.kt:849-862 | the loop over the shield parts leaves the charges as Drain describes |
| WeaponSystem.ApplyShieldDamage | core/src/se/exuvo/aurora/starsystems/systems/WeaponSystem.kt:822-868 | ShieldStruck: a shield without hit points passes the hit on and changes nothing; a raised one passes on the energy less Blocked (as a Long), loses Blocked and drains its parts' charges as Drain says |
| WeaponSystem.Resistance | core/src/se/exuvo/aurora/starsystems/systems/WeaponSystem.kt:887-893 | a hit without a ship (a missile) meets a resistance of 1000 per layer |
| WeaponSystem.Pierce | core/src/se/exuvo/aurora/starsystems/systems/WeaponSystem.kt:887-963 | one column as written, outermost intact layer first: the column keeps its size; an intact block past the end of the hull's resistances throws IndexOutOfBounds and one of resistance 0 throws Arithmetic, no other exception is possible, and a hull whose resistances are all positive never throws |
| WeaponSystem.PierceOddHulls | core/src/se/exuvo/aurora/starsystems/systems/WeaponSystem.kt:887-893 | resistance 0 throws Arithmetic, a block past the resistance array throws IndexOutOfBounds (an empty block past it does not), and a negative resistance gives a 5-point block 6 points and hands on nothing |
| WeaponSystem.PierceIntended | core/src/se/exuvo/aurora/starsystems/systems/WeaponSystem.kt:895-963 | the same walk with the block limited before the Int conversion and the product taken as a Long; the column keeps its size |
| WeaponSystem.StrikeExact | core/src/se/exuvo/aurora/starsystems/systems/WeaponSystem.kt:904-910 | StrikeAsWritten, the block of the source, equals Strike, the intended one, up to Int.MAX_VALUE energy, and the energy left lies between 0 and the energy |
| WeaponSystem.BlockStep | core/src/se/exuvo/aurora/starsystems/systems/WeaponSystem.kt:904-912 | Strike takes at most the block's points and at most the energy, and a surviving block leaves less than its resistance in the hit |
| WeaponSystem.PierceIntendedBounds | core/src/se/exuvo/aurora/starsystems/systems/WeaponSystem.kt:895-963 | the energy left lies in [0, energy], no cell gains points, layers above the start are untouched, and energy passes only through a column emptied down to layer 0 |
| WeaponSystem.PierceIntendedSpends | core/src/se/exuvo/aurora/starsystems/systems/WeaponSystem.kt:895-963 | the resistance-weighted points taken never exceed the energy spent, and when energy passes through, the column's weighted points were exactly the energy spent |
| WeaponSystem.PierceAgrees | core/src/se/exuvo/aurora/starsystems/systems/WeaponSystem.kt:904-910 | for a hull with positive resistances and up to Int.MAX_VALUE energy, Pierce never throws and gives the column and energy of PierceIntended |
| WeaponSystem.PierceSkipsHugeHit | core/src/se/exuvo/aurora/starsystems/systems/WeaponSystem.kt:904 | 1000 * 2^32 energy on a missile's one-layer column of 10 points: as written (damage / 1000).toInt() is 0, the block keeps its 10 points and all the energy passes; intended, the block is destroyed and 10000 less passes |
| WeaponSystem.Column | core/src/se/exuvo/aurora/starsystems/systems/WeaponSystem.kt:900-910 | the column's cells, innermost layer first |
| WeaponSystem.ArmorColumn | core/src/se/exuvo/aurora/starsystems/systems/WeaponSystem.kt:880-885 | a column can be struck exactly when the grid has layers and the given column lies inside it or, drawn at random, the grid has width; the column struck is the given one or one below the width; a random draw over width 0 is IllegalArgument |
| WeaponSystem.ApplyArmorDamage | core/src/se/exuvo/aurora/starsystems/systems/WeaponSystem.kt:871-970 | ArmorStruck: no grid throws NullPointer; ArmorColumn's exceptions leave the grid unchanged; otherwise the chosen column becomes Pierce of its old cells, the result is Pierce's outcome (energy left or exception) and no other column changes |
| WeaponSystem.StrikeColumn | core/src/se/exuvo/aurora/starsystems/systems/WeaponSystem.kt:895-963 | the loop over the layers leaves the column and the outcome as Pierce of the old column says, every other column untouched |
| WeaponSystem.HullDamageIntendedTakes | core/src/se/exuvo/aurora/starsystems/systems/WeaponSystem.kt:1012-1030 | intended, a living hull loses min(health, energy / 1000) points, the points taken and the whole thousands handed on add up to the thousands received, and energy passes only a destroyed hull; a dead hull passes the whole thousands on |
| WeaponSystem.HullDamageAgrees | core/src/se/exuvo/aurora/starsystems/systems/WeaponSystem.kt:1013-1024 | up to Int.MAX_VALUE thousands HullDamage, the stage as written, equals HullDamageIntended |
| WeaponSystem.HullDamageWrapsHugeHit | core/src/se/exuvo/aurora/starsystems/systems/WeaponSystem.kt:1020 | 1000 * 2^31 energy on a 100-point hull: as written damage.toInt() is -2^31, the hull keeps its 100 points and 1000 * 2^32 is handed on; intended, the hull is destroyed |
| WeaponSystem.ApplyHPDamage | core/src/se/exuvo/aurora/starsystems/systems/WeaponSystem.kt:1012-1030 | health and the energy handed on are HullDamage of the old health and the energy |
| WeaponSystem.ApplyPartHPDamage | core/src/se/exuvo/aurora/starsystems/systems/WeaponSystem.kt:972-1010 | PartsStruck: below 1000 energy or with no part hit points nothing changes and the whole thousands are returned; otherwise the loop ends only when the damage is spent or no part is damageable, so a non-zero hand-on means the map is empty; up to Int.MAX_VALUE thousands no cell gains points, and the points lost and the thousands returned add up to the thousands received; with every listed part alive and at least as many draws as hit points the draws never run out (no Unfinished); a damage that is a positive multiple of 2^32 never ends the loop and changes nothing |
| WeaponSystem.DamageOnePart | core/src/se/exuvo/aurora/starsystems/systems/WeaponSystem.kt:979-995 | one turn changes only the cell of one listed part and, up to Int.MAX_VALUE, no cell gains points; it takes from that part exactly the points by which the damage drops, never more than the damage; on an alive map a positive damage below 2^31 drops by at least one and the map stays alive; a damage that is a multiple of 2^32 changes nothing; an exception changes nothing |
| WeaponSystem.PickPart | core/src/se/exuvo/aurora/starsystems/systems/WeaponSystem.kt:979-987 | the drawn bag is higherEntry of the drawn volume modulo the largest volume, and the part is the bag's only one or the one at the drawn index modulo its size; a non-positive largest volume throws IllegalArgument, no key above the draw NullPointer |
| WeaponSystem.LoweredCell | core/src/se/exuvo/aurora/starsystems/systems/WeaponSystem.kt:991-995 | lowering the picked part's cell gains no cell points |
| WeaponSystem.NoCellGainsChain | core/src/se/exuvo/aurora/starsystems/systems/WeaponSystem.kt:978-1004 | turns that each gain no cell points gain none together, so the whole loop gains none |
| WeaponSystem.StrikePart | core/src/se/exuvo/aurora/starsystems/systems/WeaponSystem.kt:989-996 | the picked part's cell becomes PartTurn's health, the map changes as setPartHP's Damaged says, and PartTurn's damage left is returned |
| WeaponSystem.PartTurnAgrees | core/src/se/exuvo/aurora/starsystems/systems/WeaponSystem.kt:991-994 | up to Int.MAX_VALUE damage the turn as written, min(partHP, damage.toInt()), equals the intended turn on the Long damage |
| WeaponSystem.PartTurnStalls | core/src/se/exuvo/aurora/starsystems/systems/WeaponSystem.kt:991-994 | as written, a damage that is a multiple of 2^32 narrows to 0: the turn takes nothing, and part and damage are unchanged |
| WeaponSystem.PartTurnIntendedProgress | core/src/se/exuvo/aurora/starsystems/systems/WeaponSystem.kt:991-994 | intended, a turn on a part with points takes at least one point, no more than the part has or the damage, and either destroys the part or spends the damage |
| WeaponSystem.AliveAfterTurn | core/src/se/exuvo/aurora/starsystems/systems/WeaponSystem.kt:989-996 | setting a listed part with points to any health keeps every listed part alive and listed once: a part set to 0 leaves the map and no other listed part shares its cell |
| WeaponSystem.AliveHasPoints | core/src/se/exuvo/aurora/starsystems/systems/WeaponSystem.kt:978 | while the map of alive parts is not empty the cells hold at least one hit point |
| WeaponSystem.Handed | core/src/se/exuvo/aurora/starsystems/systems/WeaponSystem.kt:773-789 | a stage that ran hands on its result, a skipped stage hands on the energy it was given |
| WeaponSystem.VerdictOfFour | core/src/se/exuvo/aurora/starsystems/systems/WeaponSystem.kt:756-820 | Verdict of the four stages is each stage's Ends in turn, shield first |
| WeaponSystem.VerdictMeans | core/src/se/exuvo/aurora/starsystems/systems/WeaponSystem.kt:756-820 | the target is destroyed exactly when every stage lets the hit go on; it survives exactly when some stage returns 0 after every earlier one let the hit go on; an exception is the one thrown by the first stage that did not let it go on |
| WeaponSystem.HitShield | core/src/se/exuvo/aurora/starsystems/systems/WeaponSystem.kt:773-780 | ShieldDone: the stage runs exactly when there is a shield; without a ship it throws NullPointer and changes nothing; otherwise it strikes the shield as ShieldStruck says |
| WeaponSystem.ArmorOnwards | core/src/se/exuvo/aurora/starsystems/systems/WeaponSystem.kt:782-819 | the armor stage takes the damage handed on and the later stages the original energy; each stage runs only when every earlier one let the hit go on, and the result is the Ends chain of the three stages |
| WeaponSystem.PartsOnwards | core/src/se/exuvo/aurora/starsystems/systems/WeaponSystem.kt:791-819 | the part stage runs on any part hit points, the hull stage only when the part stage let the hit go on, both as the stage predicates say, and the result is the Ends chain of the two |
| WeaponSystem.ApplyDamage | core/src/se/exuvo/aurora/starsystems/systems/WeaponSystem.kt:756-820 | the result is Verdict of the four stage results (VerdictMeans: destroyed exactly when every stage lets the hit go on, alive at the first stage handing on 0, else the first exception); the shield stage runs exactly on a shielded target as ShieldDone says (throwing NullPointer without a ship); armor takes what the shield let through, parts and hull the original energy, each running only when every earlier stage let the hit go on |

## Left out

- Threading: the `synchronized` blocks and pools are not modelled; every operation runs alone. Pooled objects are freshly allocated.
- Floating-point costs and priorities are reals, with no NaN, infinities or rounding.
- Java `int` overflow in index arithmetic (`2 * i` in the heap's validity check, `size * fields` in IntList) is not modelled; arrays are taken to be far below 2^30 entries.
- The quadtrees' node and element arrays are modelled as an algebraic tree plus a record map. The explicit traversal stacks of find_leaf and find_leaves are modelled as loops over a sequence of pending subtrees. Free-list reuse of node slots, and the aliasing between `nodes` and `elts`, are not modelled.
- QuadtreeAABBTree.QuadtreeAABBStatic.Remove is one recursive pass over the leaves the rectangle reaches. It is not the stack loop of the source, and the result is the same.
- The `traverse` debugging walks of both quadtrees are not modelled; they only call back into drawing code.
- The AABB query's `temp` array is modelled as a boolean array that starts out empty, not as a null reference.
- QuadtreeQuery.AABBQueryComplete: completeness is stated only for a well-formed query rectangle and non-negative element half-sizes; other element sizes are left unconstrained.
- QuadtreePointTree.QuadtreePoint.Copy: the root box is taken as equal, since both trees are built with the same size.
- QuadtreeElements.IdsAt: the id of an index outside the record map is 0, a fallback that the live-element invariant never reaches.
- AStarSearch.AStar: the invariant that the explored and frontier maps send each state to a node with that state is not carried. The search's results do not depend on it.
- The `debugPlan` flag only prints, so it is not modelled beyond its position in the call to the search.
- ReGoapState.toString, and the run and plan overloads that only fill in defaults, are not modelled.
- ReGoapState: the overloads of missingDifference and replaceWithMissingDifference that take a predicate or a test (ReGoapState.java:136-155, 166-175) are modelled only with a null predicate; the precalculations hooks of actions and goals (ReGoapPlanner.java:66, 97; ReGoapNode.java:142) are calls into agent code and are left out.
- QuadtreeAABBTree.QuadtreeAABBStatic.CleanupFull runs the deduplicating merge; the as-written concatenation is kept only as the Findings member.
- CargoComponent.copy (CargoComponent.kt:76-120) and its per-type getters are not modelled beyond the cargo maps and their totals.
- TimedMovementComponent.copy (TimedMovementComponent.kt:182-226) is not modelled.
- The floating-point interpolation of timed movement and the float views of hulls, rectangles and vectors take their results as parameters or are left out: ShipHull getSurfaceArea, getLoadedMass and getPreferredMunitionMass; RectangleL fitOutside, fitInside, the aspect ratio and contains(CircleL); Vector2L len, dst, rotateRad, the angle methods, scl(double), limit, clamp, setLength, lerp, isOnLine and isCollinear.
- The hashCode methods of RectangleL and Vector2L, and EntityUUID.dispersedHash, are not modelled.
- ResearchTeam's random theory values (Research.kt:14-23) and the TheoreticalTheory and PracticalTheory classes are not modelled; random draws elsewhere are parameters.
- Player: galaxy.updateSpeed, the selection and visibleSystems are calls into the galaxy and UI and are left out.
- The apply methods of the commands act on the game world and are left out; only their queueing is modelled.
- Logging, printing and file or stream I/O are left out; their inputs become parameters.
- WeaponSystem.ApplyPartHPDamage: the random stream is a finite sequence of draws, one per turn; when the draws run out before the loop ends the stage returns Unfinished, an outcome of the model only, where the source would keep drawing. As many draws as the cells hold hit points always end the loop when every listed part has points and the damage is at most Int.MAX_VALUE thousands. A listed part with 0 hit points (set(hull) lists a part whose maxHealth is 0) and a damage that is a positive multiple of 2^32 thousands (see Findings) can keep the source drawing without end; the model reports Unfinished for them.
- WeaponSystem.PierceIntended: the intended walk is defined only for a hull with a positive resistance on every layer it reaches; the as-written Pierce, which the armor stage runs, covers zero, negative and missing resistances.
- Text.StringHash: sums the Unicode scalar values of the characters, not UTF-16 code units, so it differs from String.hashCode on text with characters above U+FFFF; Hulls.HullHash inherits this.
- Text.ParseInt: accepts only the ASCII digits 0-9; Integer.parseInt also accepts the other decimal digits Character.digit knows.
- Text.ParseLong: accepts only the ASCII digits 0-9; Long.parseLong also accepts the other decimal digits Character.digit knows.
- Settings: the parsing constructor given a null type throws a NullPointerException at its switch (core/src/se/exuvo/settings/Setting.java:58-60); the model's type is a datatype value and is never null.
- Research.Registered: a new category is placed last in the registry's visiting order; Java's HashMap order is unspecified, so the model fixes one order, and the lookup and linking lemmas hold for any order.

## Findings

| source | as written | input that shows it | evidently intended | confidence | as-written member | corrected member |
|---|---|---|---|---|---|---|
| core/src/se/exuvo/aurora/goap/interfaces/ReGoapState.java:128-130 | missingDifference(other, difference) ignores `difference` and writes nothing into it | this = {"a": 1}, other = {} | the missing pairs are written into `difference` | high, not executed | GoapState.IgnoredDifferenceExample | GoapState.State.MissingDifferenceInto |
| core/src/se/exuvo/aurora/ai/goap/planner/ReGoapPlanner.java:102-112 | the feasibility pre-check narrows the goal through missingDifference(other, difference), which writes nothing, so the narrowed goal is always empty and every goal passes | goal {"fuel": 1}, no actions, empty world | a goal passes only when the actions' effects and the world together cover it | high, not executed | GoapPlanner.PrecheckExample | GoapPlanner.Precheck |
| core/src/se/exuvo/aurora/utils/quadtree/QuadtreeAABBStatic.java:221-314 | cleanupFull concatenates the four children's lists; an element straddling the centre is in all four, so the merged leaf lists it four times and a later remove unlinks only one copy | one element at (50, 50), half-size 5, in a branch centred at (50, 50) | the merged list holds each element once | high, not executed | QuadtreeCleanup.CleanupFullDuplicates | QuadtreeCleanup.CleanupFullThenRemove |
| core/src/se/exuvo/aurora/ai/goap/planner/ReGoapNode.java:92-95 | goalMergedWithWorld is filled through goal.missingDifference(world, diff), which leaves diff empty, so every node, the root included, reports isGoal | goal {fuel: 1}, empty world: the root is reported reached, A* returns it and the path is empty, so the planner skips every goal | diff holds the goal pairs the world lacks, so a node is a goal only when the world satisfies its goal | high, not executed | GoapNode.DifferenceAsWritten | GoapNode.DifferenceFromWorld |
| core/src/se/exuvo/aurora/starsystems/systems/GroupSystem.kt:173-201 | remove always records the bag's last entry at the freed index; when the removed entity is itself the last entry, this puts it back into the membership map, so it still answers isMemberOf | a and b added to group "g", then b removed: isMemberOf(b, "g") stays true while the bag and b's group set no longer hold it | the moved entry is re-recorded only when it is another entity, so the removed one stops being a member | medium, not executed | Groups.RemoveLastStaysMember | Groups.GroupSystem.Remove |
| core/src/se/exuvo/aurora/starsystems/components/HealthComponents.kt:202-204, 216 | appending to an existing bag re-files it under key + volume with put, overwriting any bag already filed under that key | bag of two 5 cm³ parts under key 10, then a 10 cm³ part: key 10 is overwritten by the new part's bag and the two parts are lost | parts are never lost: the members gain exactly the part, and where the key is free the total of the keys grows by the part's volume | medium, not executed | Health.AddCollisionLosesParts | Health.AddIntendedKeepsParts |
| core/src/se/exuvo/aurora/galactic/ShipHull.kt:81-90 | removePart drops the PartRef at the index but does not renumber the later ones | three parts, the first removed: the next PartRef still records index 1 at position 0 | every PartRef records its position after removal | medium, not executed | Hulls.RemoveLeavesStaleIndex | Hulls.ShipHull.RemovePartReindexed |
| core/src/se/exuvo/aurora/starsystems/systems/WeaponSystem.kt:904 | (damage / armorResistance).toInt() wraps for a Long damage of 2^32 resistance units or more | 1000 * 2^32 energy on a one-layer armour column of 10 points with resistance 1000: the block takes 0 and all the energy passes | the block takes min(armorHP, damage / resistance) computed without wrap-around | medium, not executed | WeaponSystem.PierceSkipsHugeHit | WeaponSystem.PierceIntended |
| core/src/se/exuvo/aurora/starsystems/systems/WeaponSystem.kt:991 | min(partHP, damage.toInt()) narrows the Long damage before taking the minimum; a damage that is a positive multiple of 2^32 narrows to 0, so every turn takes nothing and the part loop never ends | 1000 * 2^32 energy on a target with one 10-point part: each turn takes 0, the damage stays 2^32 and the part keeps its 10 points, turn after turn | each turn takes min(partHP, damage) on the Long damage, so a turn on a part with points takes at least one point and the loop ends | medium, not executed | WeaponSystem.PartTurnStalls | WeaponSystem.PartTurnIntendedProgress |
| core/src/se/exuvo/aurora/starsystems/systems/WeaponSystem.kt:1020 | damage.toInt() wraps for a Long damage of 2^31 or more | 1000 * 2^31 energy on a 100-point hull: the hull takes -2^31, keeps its points and more energy is handed on | the hull takes min(hullHP, damage) computed without wrap-around | medium, not executed | WeaponSystem.HullDamageWrapsHugeHit | WeaponSystem.HullDamageIntendedTakes |
| core/src/se/exuvo/aurora/utils/OutputStreamListener.kt:17-24 | the last row's end is taken as the newline's index minus one, which assumes a CR before every LF | "x\ny\n": the row reported is "x\n" instead of "y" | with a bare LF the row ends just before the LF | medium, not executed | StreamListener.BareLineFeedRow | StreamListener.LastRowLine |
| core/src/se/exuvo/aurora/starsystems/components/ColonyComponents.kt:61-67 | copy passes population and three land areas to set, but not miningLandArea | a colony with mining land area 5 copied onto a fresh one: the copy has 0 | copy carries every field, miningLandArea included | medium, not executed | Colony.CopyDropsMining | Colony.ColonyComponent.CopyAll |
| core/src/se/exuvo/aurora/starsystems/StarSystem.kt:647 | a reference is validated by comparing the UUIDs' hash codes, not the UUIDs | UUIDs (0, 0, 38) and (0, 1, 1) both hash to 50691, so a stale reference to entity 5 is accepted | a reference is valid only when its UUID equals the entity's | medium, not executed | StarSystems.StaleReferenceAccepted | StarSystems.StarSystem.IsEntityReferenceValidExact |
| core/src/se/exuvo/aurora/utils/Units.java:36-42 | the millisecond remainder is printed with %06d after the point, as if it were microseconds | 1500 ms prints "1.000500s", which reads as 1.0005 seconds | the remainder printed with three digits, "1.500s" | high, not executed | Units.MilliToStringMisreads | Units.MilliToStringExact |
| core/src/se/exuvo/aurora/utils/Units.java:146-150 | the top distance range divides by TERA but prints the unit Pm | 2 * 10^15 metres print as "2000 Pm" | each range prints the unit of its divisor: "2000 Tm" | high, not executed | Units.DistanceOverstates | Units.ScalesConsistent |
| core/src/se/exuvo/aurora/starsystems/components/PowerComponent.kt:47-60 | copy replaces a target list only when the two lists' hash codes differ | source [PartRef(p, 0)] and target [PartRef(q, 31)] with p's identity hash one more than q's: equal hash codes, so the target keeps its different list | after copy every list equals the source's | low, not executed | Power.CopyKeepsCollidingList | Power.PowerComponent.CopyExact |
