/**
 * `AStar`: the best-first search of the GOAP planner. The frontier is a
 * `FastPriorityQueue` ordered by node cost; `explored` and `stateToNode` map a
 * node's state object to its node (by identity, as the state class does not
 * redefine equality); `createdNodes` remembers the nodes made during a run so
 * the next run can recycle them.
 */
module AStarSearch {
  import opened Wrappers
  import opened GoapState
  import opened GoapNode
  import opened PriorityQueue
  import JavaMath

  /** `x` is `start` or was made, directly or not, by expanding `start`. */
  ghost predicate Descends(x: Node, start: Node)
  {
    x == start || start in x.ancestors
  }

  /** A node the search may return: its goal minus the world state is empty. */
  ghost predicate Reached(x: Node)
  {
    x.goalMergedWithWorld == map[]
  }

  /**
   * The nodes a run has met: live, linked to a root, descended from `start`,
   * planned for its agent and built the way it was, with the goal merged
   * with the world as the build writes it.
   */
  ghost predicate Grown(known: set<Node?>, start: Node)
    reads known`state, known`goal
  {
    forall x :: x in known ==>
      && x != null && x.Live() && x.Chain() && Descends(x, start)
      && x.agent == start.agent && x.corrected == start.corrected && x.madeWorld == start.madeWorld && x.Merged()
  }

  /** The agent's world state is still the one `start` was made in. */
  ghost predicate WorldAsMade(start: Node)
    reads start.agent.world
  {
    start.agent.world.Values() == start.madeWorld
  }

  /** How a step of the search ended: go on, leave the expansion, return a node, or an exception. */
  datatype Step = Continue | Stop | Found(node: Node) | Failed(error: Exception)

  class AStar {
    const frontier: FastPriorityQueue
    var stateToNode: map<State, Node>
    var explored: map<State, Node>
    var createdNodes: seq<Node>

    /** The frontier is a well-formed queue. */
    ghost predicate Valid()
      reads frontier, frontier.nodes, frontier.nodes[..]`queueIndex
    {
      frontier.Valid()
    }

    /** The constructor once the queue exists: empty maps and no created nodes. */
    constructor WithFrontier(frontier: FastPriorityQueue)
      requires frontier.Valid()
      ensures this.frontier == frontier && Valid()
      ensures stateToNode == map[] && explored == map[] && createdNodes == []
    {
      this.frontier := frontier;
      stateToNode := map[];
      explored := map[];
      createdNodes := [];
    }

    /** `clearNodes()`: every created node is recycled and the list emptied. */
    method ClearNodes()
      modifies this`createdNodes, createdNodes`state, createdNodes`goal
      ensures createdNodes == []
      ensures forall n :: n in old(createdNodes) ==> !n.Live()
    {
      var i := 0;
      while i < |createdNodes|
        invariant 0 <= i <= |createdNodes| && createdNodes == old(createdNodes)
        invariant forall k :: 0 <= k < i ==> !createdNodes[k].Live()
      {
        createdNodes[i].Recycle();
        i := i + 1;
      }
      createdNodes := [];
    }

    /**
     * `run(start, goal, maxIterations, earlyExit, clearNodes)`: the frontier,
     * `stateToNode` and `explored` are emptied; with `clearNodes` the nodes of
     * the previous run are recycled and `start` is recorded. Then `start` is
     * queued at its cost and the search runs. The result is a goal node that
     * descends from `start`, or null when the frontier emptied, the iteration
     * budget ran out or the frontier came within one slot of its capacity.
     * An exception thrown by the queue is an `Err`. A fresh `start` whose goal
     * is already met by the world is returned by the first pass, unexpanded.
     */
    method Run(start: Node, goal: State?, maxIterations: int, earlyExit: bool, clearNodes: bool)
      returns (r: Result<Node?>, ghost iterations: int)
      requires Valid() && start.Live() && start.Chain() && start.Merged() && WorldAsMade(start) && (clearNodes ==> start !in createdNodes)
      modifies this, frontier, frontier.nodes, start`priority, start`queueIndex, start`expandList, createdNodes`state, createdNodes`goal
      ensures Valid() && frontier.Heap() && frontier.nodes == old(frontier.nodes)
      ensures r.Ok? && r.value != null ==>
        && r.value.Live() && r.value.Chain() && Reached(r.value) && Descends(r.value, start)
        && r.value.agent == start.agent && r.value.corrected == start.corrected && r.value.madeWorld == start.madeWorld && r.value.Merged()
      ensures r == Ok(null) ==>
        frontier.GetCount() <= 0 || iterations >= maxIterations || frontier.GetCount() + 1 >= frontier.GetMaxSize()
      ensures clearNodes ==> forall n :: n in old(createdNodes) ==> !n.Live()
      ensures clearNodes ==> [start] <= createdNodes
      ensures !clearNodes ==> createdNodes == old(createdNodes)
      ensures forall n :: n in createdNodes ==> n in old(createdNodes) || n == start || fresh(n)
      ensures old(start.queueIndex) == 0 && Reached(start) && 0 < maxIterations && 2 < frontier.GetMaxSize() ==> r.Ok? && r.value == start
    {
      Reset(start, clearNodes);
      r, iterations := Begin(start, goal, maxIterations, earlyExit, clearNodes);
    }

    /** The first lines of `run`: empty frontier and maps; with `clearNodes`, recycling and recording `start`. */
    method Reset(start: Node, clearNodes: bool)
      requires Valid() && start.Live() && (clearNodes ==> start !in createdNodes)
      modifies this`stateToNode, this`explored, this`createdNodes, frontier, frontier.nodes, createdNodes`state, createdNodes`goal
      ensures Valid() && frontier.Heap() && frontier.Elements() == multiset{} && frontier.nodes == old(frontier.nodes)
      ensures stateToNode == map[] && explored == map[] && start.Live()
      ensures clearNodes ==> forall n :: n in old(createdNodes) ==> !n.Live()
      ensures clearNodes ==> createdNodes == [start]
      ensures !clearNodes ==> createdNodes == old(createdNodes)
    {
      frontier.Clear();
      stateToNode := map[];
      explored := map[];
      if clearNodes {
        ClearNodes();
        createdNodes := createdNodes + [start];
      }
    }

    /** The rest of `run`: `start` is queued at its cost and the search loop runs. */
    method Begin(start: Node, goal: State?, maxIterations: int, earlyExit: bool, clearNodes: bool)
      returns (r: Result<Node?>, iterations: int)
      requires Valid() && frontier.Heap() && frontier.Elements() == multiset{}
      requires start.Live() && start.Chain() && start.Merged() && WorldAsMade(start) && explored == map[] && stateToNode == map[]
      modifies this`stateToNode, this`explored, this`createdNodes, frontier, frontier.nodes
      modifies start`priority, start`queueIndex, start`expandList
      ensures Valid() && frontier.Heap() && frontier.nodes == old(frontier.nodes)
      ensures r.Ok? && r.value != null ==>
        && r.value.Live() && r.value.Chain() && Reached(r.value) && Descends(r.value, start)
        && r.value.agent == start.agent && r.value.corrected == start.corrected && r.value.madeWorld == start.madeWorld && r.value.Merged()
      ensures r == Ok(null) ==>
        frontier.GetCount() <= 0 || iterations >= maxIterations || frontier.GetCount() + 1 >= frontier.GetMaxSize()
      ensures Extends(old(createdNodes), createdNodes, clearNodes)
      ensures forall n :: n in createdNodes ==> n in old(createdNodes) || n == start || fresh(n)
      ensures old(start.queueIndex) == 0 && Reached(start) && 0 < maxIterations && 2 < frontier.GetMaxSize() ==> r.Ok? && r.value == start
    {
      frontier.SlotsAreElements();
      var queued := frontier.Enqueue(start, start.cost);
      if queued.Fail? {
        r, iterations := Err(queued.error), 0;
      } else {
        GrownWith({}, start, start);
        r, iterations := Search(start, goal, maxIterations, earlyExit, clearNodes);
      }
    }

    /**
     * The search of `run` once `start` is queued. The maps and the list of
     * created nodes are carried through the loop as values and stored back
     * when it ends.
     */
    method Search(start: Node, goal: State?, maxIterations: int, earlyExit: bool, clearNodes: bool)
      returns (r: Result<Node?>, iterations: int)
      requires Valid() && frontier.Heap() && frontier.Elements() == multiset{start} && Grown({start}, start) && WorldAsMade(start)
      modifies this`stateToNode, this`explored, this`createdNodes, frontier, frontier.nodes
      modifies start`priority, start`queueIndex, start`expandList
      ensures Valid() && frontier.Heap() && frontier.nodes == old(frontier.nodes)
      ensures r.Ok? && r.value != null ==>
        && r.value.Live() && r.value.Chain() && Reached(r.value) && Descends(r.value, start)
        && r.value.agent == start.agent && r.value.corrected == start.corrected && r.value.madeWorld == start.madeWorld && r.value.Merged()
      ensures r == Ok(null) ==>
        frontier.GetCount() <= 0 || iterations >= maxIterations || frontier.GetCount() + 1 >= frontier.GetMaxSize()
      ensures Extends(old(createdNodes), createdNodes, clearNodes)
      ensures forall n :: n in createdNodes ==> n in old(createdNodes) || n == start || fresh(n)
      ensures Reached(start) && 0 < maxIterations && 2 < frontier.GetMaxSize() ==> r.Ok? && r.value == start
    {
      var step, seen, index, created;
      step, iterations, seen, index, created := Loop(start, goal, maxIterations, earlyExit, clearNodes, explored, stateToNode, createdNodes);
      Store(seen, index, created);
      if step.Found? {
        r := Ok(step.node);
      } else if step.Failed? {
        r := Err(step.error);
      } else {
        r := Ok(null);
      }
    }

    /** The maps and the created list after the loop, as `run` leaves them. */
    method Store(seen: map<State, Node>, index: map<State, Node>, created: seq<Node>)
      modifies this`explored, this`stateToNode, this`createdNodes
      ensures explored == seen && stateToNode == index && createdNodes == created
    {
      explored, stateToNode, createdNodes := seen, index, created;
    }

    /** The `while` loop of `run`: nodes leave the frontier cheapest first until a goal turns up or a budget ends. */
    method Loop(start: Node, goal: State?, maxIterations: int, earlyExit: bool, clearNodes: bool,
                seen0: map<State, Node>, index0: map<State, Node>, created0: seq<Node>)
      returns (step: Step, iterations: int, seen: map<State, Node>, index: map<State, Node>, created: seq<Node>)
      requires Valid() && frontier.Heap() && frontier.Elements() == multiset{start} && Grown({start}, start) && WorldAsMade(start)
      modifies frontier, frontier.nodes, start`priority, start`queueIndex, start`expandList
      ensures Valid() && frontier.Heap() && frontier.nodes == old(frontier.nodes) && Extends(created0, created, clearNodes)
      ensures forall n :: n in created ==> n in created0 || n == start || fresh(n)
      ensures step.Found? ==>
        && step.node.Live() && step.node.Chain() && Reached(step.node) && Descends(step.node, start)
        && step.node.agent == start.agent && step.node.corrected == start.corrected && step.node.madeWorld == start.madeWorld && step.node.Merged()
      ensures step.Continue? || step.Found? || step.Failed?
      ensures step.Continue? ==>
        frontier.GetCount() <= 0 || iterations >= maxIterations || frontier.GetCount() + 1 >= frontier.GetMaxSize()
      ensures Reached(start) && 0 < maxIterations && 2 < frontier.GetMaxSize() ==> step == Found(start)
    {
      iterations := 0;
      ghost var known: set<Node?> := {start};
      seen, index, created := seen0, index0, created0;
      step := Continue;
      while step == Continue && frontier.GetCount() > 0 && iterations < maxIterations
        && frontier.GetCount() + 1 < frontier.GetMaxSize()
        invariant Valid() && frontier.Heap() && Grown(known, start) && (forall x :: x in frontier.Elements() ==> x in known)
        invariant WorldAsMade(start) && frontier.nodes == old(frontier.nodes) && Extends(created0, created, clearNodes)
        invariant Within(created, created0, known) && forall x :: x in known ==> x == start || fresh(x)
        invariant step.Found? ==> step.node in known && Reached(step.node)
        invariant step.Continue? || step.Found? || step.Failed?
        invariant Reached(start) && 0 < maxIterations && 3 < frontier.nodes.Length ==>
          (iterations == 0 && step == Continue && frontier.Elements() == multiset{start}) || step == Found(start)
        decreases if step == Continue then 1 else 0, 2 * (maxIterations - iterations) + |frontier.Elements()|
      {
        step, iterations, known, seen, index, created :=
          Round(start, goal, earlyExit, clearNodes, iterations, known, seen, index, created);
      }
    }

    /**
     * One pass of the `while` loop of `run`: the cheapest node leaves the
     * frontier and is returned if it is a goal; otherwise its state is marked
     * explored and its children are visited.
     */
    method Round(ghost start: Node, goal: State?, earlyExit: bool, clearNodes: bool, iterations0: int,
                 ghost known0: set<Node?>, seen0: map<State, Node>, index0: map<State, Node>, created0: seq<Node>)
      returns (step: Step, iterations: int, ghost known: set<Node?>,
               seen: map<State, Node>, index: map<State, Node>, created: seq<Node>)
      requires Valid() && frontier.Heap() && Grown(known0, start) && (forall x :: x in frontier.Elements() ==> x in known0)
      requires |frontier.Elements()| > 0 && WorldAsMade(start)
      modifies frontier, frontier.nodes, known0`queueIndex, known0`priority, known0`expandList
      ensures Valid() && frontier.Heap() && Grown(known, start) && (forall x :: x in frontier.Elements() ==> x in known)
      ensures frontier.nodes == old(frontier.nodes) && Extends(created0, created, clearNodes)
      ensures Within(created, created0, known)
      ensures known0 <= known && forall x :: x in known ==> x in known0 || fresh(x)
      ensures iterations0 <= iterations && |frontier.Elements()| < |old(frontier.Elements())| + (iterations - iterations0)
      ensures step.Found? ==> step.node in known && Reached(step.node)
      ensures step.Continue? || step.Found? || step.Failed?
      ensures old(frontier.Elements()) == multiset{start} && Reached(start) ==> step == Found(start)
    {
      var node := Pop(start, known0);
      if node.IsGoal(goal) {
        step, iterations, known, seen, index, created := Found(node), iterations0, known0, seen0, index0, created0;
      } else {
        seen := seen0[node.state := node];
        step, iterations, known, index, created := Expand(node, start, goal, earlyExit, clearNodes, iterations0, known0, seen, index0, created0);
      }
    }

    /** The second half of a pass: the popped node is expanded and its children are visited. */
    method Expand(node: Node, ghost start: Node, goal: State?, earlyExit: bool, clearNodes: bool, iterations0: int,
                  ghost known0: set<Node?>, seen: map<State, Node>, index0: map<State, Node>, created0: seq<Node>)
      returns (step: Step, iterations: int, ghost known: set<Node?>, index: map<State, Node>, created: seq<Node>)
      requires Valid() && frontier.Heap() && Grown(known0, start) && (forall x :: x in frontier.Elements() ==> x in known0)
      requires node in known0 && WorldAsMade(start)
      modifies frontier, frontier.nodes, known0`queueIndex, known0`priority, node`expandList
      ensures Valid() && frontier.Heap() && Grown(known, start) && (forall x :: x in frontier.Elements() ==> x in known)
      ensures frontier.nodes == old(frontier.nodes) && Extends(created0, created, clearNodes)
      ensures Within(created, created0, known)
      ensures known0 <= known && forall x :: x in known ==> x in known0 || fresh(x)
      ensures iterations0 <= iterations && |frontier.Elements()| <= |old(frontier.Elements())| + (iterations - iterations0)
      ensures step.Found? ==> step.node in known && Reached(step.node)
      ensures step.Continue? || step.Found? || step.Failed?
    {
      var children;
      children, known := Children(node, start, known0);
      step, iterations, index, created := Visit(children, start, goal, earlyExit, clearNodes, iterations0, known, seen, index0, created0);
    }

    /** `frontier.dequeue()` on a nonempty heap: the cheapest known node. */
    method Pop(ghost start: Node, ghost known: set<Node?>) returns (node: Node)
      requires Valid() && frontier.Heap() && Grown(known, start) && (forall x :: x in frontier.Elements() ==> x in known)
      requires |frontier.Elements()| > 0
      modifies frontier, frontier.nodes, known`queueIndex
      ensures Valid() && frontier.Heap() && Grown(known, start) && (forall x :: x in frontier.Elements() ==> x in known)
      ensures frontier.nodes == old(frontier.nodes)
      ensures node in known && |frontier.Elements()| == |old(frontier.Elements())| - 1
      ensures node in old(frontier.Elements())
    {
      frontier.SlotsAreElements();
      var dequeued := frontier.Dequeue();
      node := dequeued.value;
    }

    /** `node.expand()`: fresh children, each live, linked and descended from `start`, join the known nodes. */
    method Children(node: Node, ghost start: Node, ghost known0: set<Node?>) returns (children: seq<Node>, ghost known: set<Node?>)
      requires Grown(known0, start) && node in known0 && WorldAsMade(start)
      modifies node`expandList
      ensures Grown(known, start) && known0 <= known && forall x :: x in known ==> x in known0 || fresh(x)
      ensures forall j :: 0 <= j < |children| ==> children[j] in known
    {
      children := node.Expand();
      known := known0 + set j | 0 <= j < |children| :: children[j];
      forall x | x in known
        ensures x != null && x.Live() && x.Chain() && Descends(x, start)
        ensures x.agent == start.agent && x.corrected == start.corrected && x.madeWorld == start.madeWorld && x.Merged()
      {
        if x !in known0 {
          var j :| 0 <= j < |children| && x == children[j];
          assert ChildOf(children[j], node, node.ancestors, node.agent, node.ExpandStack(),
            AdmittedFrom(node.agent.actions, |node.agent.actions| - 1, node.ExpandStack())[j]);
        }
      }
    }

    /** The `for` loop of `run` over the children of the node taken from the frontier, one child at a time. */
    method Visit(children: seq<Node>, ghost start: Node, goal: State?, earlyExit: bool, clearNodes: bool, iterations0: int,
                 ghost known: set<Node?>, seen: map<State, Node>, index0: map<State, Node>, created0: seq<Node>)
      returns (step: Step, iterations: int, index: map<State, Node>, created: seq<Node>)
      requires Valid() && frontier.Heap() && Grown(known, start) && (forall x :: x in frontier.Elements() ==> x in known)
      requires forall j :: 0 <= j < |children| ==> children[j] in known
      modifies frontier, frontier.nodes, known`queueIndex, known`priority
      ensures Valid() && frontier.Heap() && Grown(known, start) && (forall x :: x in frontier.Elements() ==> x in known)
      ensures frontier.nodes == old(frontier.nodes) && Extends(created0, created, clearNodes)
      ensures Within(created, created0, known)
      ensures iterations0 <= iterations && |frontier.Elements()| <= |old(frontier.Elements())| + (iterations - iterations0)
      ensures step.Found? ==> step.node in known && Reached(step.node)
      ensures step.Continue? || step.Found? || step.Failed?
    {
      iterations, index, created := iterations0, index0, created0;
      var i := 0;
      step := Continue;
      while i < |children| && step == Continue
        invariant 0 <= i <= |children| && iterations == iterations0 + i
        invariant Valid() && frontier.Heap() && Grown(known, start) && (forall x :: x in frontier.Elements() ==> x in known)
        invariant frontier.nodes == old(frontier.nodes) && Extends(created0, created, clearNodes)
        invariant Within(created, created0, known)
        invariant |frontier.Elements()| <= |old(frontier.Elements())| + i
        invariant step.Found? ==> step.node in known && Reached(step.node)
      {
        var child := children[i];
        iterations := iterations + 1;
        i := i + 1;
        if clearNodes {
          created := created + [child];
        }
        step, index := Consider(child, start, goal, earlyExit, known, seen, index);
      }
      if step == Stop {
        step := Continue;
      }
    }

    /**
     * The body of the `for` loop of `run` for one child after it is
     * recorded: with `earlyExit` a goal child is returned at once; a child
     * whose state was explored is skipped; a queued node with the same state
     * is replaced when it costs more, and otherwise ends the expansion
     * (`Stop`); the child is then queued at its cost and recorded under its
     * state.
     */
    method Consider(child: Node, ghost start: Node, goal: State?, earlyExit: bool, ghost known: set<Node?>,
                    seen: map<State, Node>, index0: map<State, Node>)
      returns (step: Step, index: map<State, Node>)
      requires Valid() && frontier.Heap() && Grown(known, start) && (forall x :: x in frontier.Elements() ==> x in known)
      requires child in known
      modifies frontier, frontier.nodes, known`queueIndex, child`priority
      ensures Valid() && frontier.Heap() && Grown(known, start) && (forall x :: x in frontier.Elements() ==> x in known)
      ensures frontier.nodes == old(frontier.nodes) && |frontier.Elements()| <= |old(frontier.Elements())| + 1
      ensures step.Found? ==> step.node == child && Reached(child)
    {
      index := index0;
      var state := child.state;
      if earlyExit && child.IsGoal(goal) {
        step := Found(child);
      } else if state in seen {
        step := Continue;
      } else if state in index && index[state].cost <= child.cost {
        step := Stop;
      } else {
        var queued := Enter(child, if state in index then index[state] else null, start, known);
        if queued.Fail? {
          step := Failed(queued.error);
        } else {
          index := index[state := child];
          step := Continue;
        }
      }
    }

    /**
     * `frontier.remove(similarNode)` when a node with the child's state is
     * queued, then `frontier.enqueue(child, childCost)`; the first exception
     * ends the step.
     */
    method Enter(child: Node, similarNode: Node?, ghost start: Node, ghost known: set<Node?>) returns (r: Outcome)
      requires Valid() && frontier.Heap() && Grown(known, start) && (forall x :: x in frontier.Elements() ==> x in known)
      requires child in known
      modifies frontier, frontier.nodes, known`queueIndex, child`priority
      ensures Valid() && frontier.Heap() && Grown(known, start) && (forall x :: x in frontier.Elements() ==> x in known)
      ensures frontier.nodes == old(frontier.nodes) && |frontier.Elements()| <= |old(frontier.Elements())| + 1
    {
      r := Pass;
      if similarNode != null {
        r := Replace(similarNode, start, known);
      }
      if r.Pass? {
        r := Admit(child, start, known);
      }
    }

    /** `frontier.remove(similarNode)`: the costlier queued node with the same state leaves the frontier. */
    method Replace(similarNode: Node, ghost start: Node, ghost known: set<Node?>) returns (r: Outcome)
      requires Valid() && frontier.Heap() && Grown(known, start) && (forall x :: x in frontier.Elements() ==> x in known)
      modifies frontier, frontier.nodes, known`queueIndex
      ensures Valid() && frontier.Heap() && Grown(known, start) && (forall x :: x in frontier.Elements() ==> x in known)
      ensures frontier.nodes == old(frontier.nodes) && |frontier.Elements()| <= |old(frontier.Elements())|
    {
      frontier.SlotsAreElements();
      ghost var before := frontier.Elements();
      r := frontier.Remove(similarNode);
      assert frontier.Elements() <= before;
      Shrinks(before, similarNode);
    }

    /** `frontier.enqueue(child, childCost)`: a known child joins the frontier. */
    method Admit(child: Node, ghost start: Node, ghost known: set<Node?>) returns (r: Outcome)
      requires Valid() && frontier.Heap() && Grown(known, start) && (forall x :: x in frontier.Elements() ==> x in known)
      requires child in known
      modifies frontier, frontier.nodes, known`queueIndex, child`priority
      ensures Valid() && frontier.Heap() && Grown(known, start) && (forall x :: x in frontier.Elements() ==> x in known)
      ensures frontier.nodes == old(frontier.nodes) && |frontier.Elements()| <= |old(frontier.Elements())| + 1
    {
      frontier.SlotsAreElements();
      r := frontier.Enqueue(child, child.cost);
    }
  }

  /** Every node of `created` was in `created0` or among `known`. */
  ghost predicate Within(created: seq<Node>, created0: seq<Node>, known: set<Node?>)
  {
    forall n :: n in created ==> n in created0 || n in known
  }

  /** With `clearNodes` the created list only grows at its end; without it the list does not change. */
  ghost predicate Extends(created0: seq<Node>, created: seq<Node>, clearNodes: bool)
  {
    if clearNodes then created0 <= created else created == created0
  }

  /** A live, linked descendant of `start` may join the nodes a run has met. */
  lemma GrownWith(known: set<Node?>, child: Node, start: Node)
    requires Grown(known, start) && child.Live() && child.Chain() && Descends(child, start)
    requires child.agent == start.agent && child.corrected == start.corrected && child.madeWorld == start.madeWorld && child.Merged()
    ensures Grown(known + {child}, start)
  {
  }

  /** Taking one copy of `x` out of `m` never makes it larger. */
  lemma Shrinks(m: multiset<Node?>, x: Node?)
    ensures |m - multiset{x}| <= |m|
  {
    if x in m {
      assert m == (m - multiset{x}) + multiset{x};
    } else {
      assert m - multiset{x} == m;
    }
  }

  /**
   * `new AStar(maxNodesToExpand)`: a frontier of that capacity; a size the
   * queue rejects is an error.
   */
  method Create(maxNodesToExpand: int) returns (r: Result<AStar>)
    requires JavaMath.INT_MIN <= maxNodesToExpand <= JavaMath.INT_MAX
    ensures r.Err? <==> maxNodesToExpand <= 0 || maxNodesToExpand == JavaMath.INT_MAX
    ensures r.Ok? ==> fresh(r.value) && fresh(r.value.frontier) && r.value.Valid()
    ensures r.Ok? ==> r.value.frontier.GetMaxSize() == maxNodesToExpand && r.value.frontier.Elements() == multiset{}
    ensures r.Ok? ==> r.value.createdNodes == [] && r.value.explored == map[] && r.value.stateToNode == map[]
  {
    var q := PriorityQueue.Create(maxNodesToExpand);
    if q.Err? {
      return Err(q.error);
    }
    var a := new AStar.WithFrontier(q.value);
    return Ok(a);
  }
}
