/**
 * A node of the A* search over world states (`ReGoapNode`). A node holds the
 * world state reached so far, the goal still to satisfy, the path cost `g`,
 * the heuristic `h` (the size of the remaining goal) and the total `cost`.
 * Actions, the agent and the plan steps are plain values here: an action is
 * the answers it gives when shown a stack of the planning data.
 */
module GoapNode {
  import opened Wrappers
  import opened GoapState
  import JavaMath

  /**
   * What an action is shown (`GoapActionStackData`): the current and goal
   * states, the action planned next (its position in the agent's action list)
   * and the settings it is being considered with. The agent is always the one
   * being planned for.
   */
  datatype StackData = StackData(currentState: StateMap, goalState: StateMap, next: Option<nat>, settings: Option<StateMap>)

  /** An action (`IReGoapAction`), seen through the answers it gives for a stack. */
  datatype Action = Action(
    name: string,
    settingsFor: StackData -> seq<StateMap>,
    preconditionsFor: StackData -> StateMap,
    effectsFor: StackData -> StateMap,
    costFor: StackData -> real,
    procedural: StackData -> bool)

  /** The agent being planned for: the world state in its memory and its action list. */
  datatype Agent = Agent(world: State, actions: seq<Action>)

  /** One step of a plan (`ReGoapActionState`): the action's position and its settings. */
  datatype ActionState = ActionState(action: Option<nat>, settings: Option<StateMap>)

  /** `expand`'s admission test for action `a` shown the stack `sd`. */
  predicate Admits(a: Action, sd: StackData)
  {
    var pre := a.preconditionsFor(sd);
    var eff := a.effectsFor(sd);
    HasAnySpec(eff, sd.goalState)
    && !ConflictUnlessChangedSpec(sd.goalState, eff, pre)
    && !ConflictSpec(sd.goalState, eff)
    && a.procedural(sd)
  }

  /** The state a node made with action `a` reaches: the stack's state with the effects merged in. */
  function ChildState(a: Action, sd: StackData): StateMap
  {
    sd.currentState + a.effectsFor(sd)
  }

  /** The goal left for a node made with `a`: the pairs the effects do not satisfy, plus the preconditions. */
  function ChildGoal(a: Action, sd: StackData): StateMap
  {
    Missing(sd.goalState, a.effectsFor(sd)) + a.preconditionsFor(sd)
  }

  /** What the action costs when shown `sd`. */
  function ChildCost(a: Action, sd: StackData): real
  {
    a.costFor(sd)
  }

  /** The (action, settings) pairs admitted for action `index` over `list`, in list order. */
  function AdmittedSettings(a: Action, index: nat, base: StackData, list: seq<StateMap>): seq<(nat, StateMap)>
  {
    if list == [] then []
    else
      (if Admits(a, base.(settings := Some(list[0]))) then [(index, list[0])] else [])
      + AdmittedSettings(a, index, base, list[1..])
  }

  /**
   * `AdmittedSettings` keeps exactly the admitted settings: every pair it
   * lists is for `index`, comes from the list and is admitted, and every
   * admitted settings of the list is listed.
   */
  lemma {:induction false} AdmittedSettingsExact(a: Action, index: nat, base: StackData, list: seq<StateMap>)
    ensures |AdmittedSettings(a, index, base, list)| <= |list|
    ensures forall p :: p in AdmittedSettings(a, index, base, list) ==>
      p.0 == index && p.1 in list && Admits(a, base.(settings := Some(p.1)))
    ensures forall s :: s in list && Admits(a, base.(settings := Some(s))) ==>
      (index, s) in AdmittedSettings(a, index, base, list)
  {
    if list != [] {
      AdmittedSettingsExact(a, index, base, list[1..]);
      assert forall s :: s in list && s != list[0] ==> s in list[1..];
    }
  }

  /**
   * The pairs admitted from action `i` down to action 0. The stack keeps the
   * last settings of the previous action, as `expand` does not reset them.
   */
  function AdmittedFrom(actions: seq<Action>, i: int, base: StackData): seq<(nat, StateMap)>
    requires i < |actions|
    decreases i + 1
  {
    if i < 0 then []
    else
      var list := actions[i].settingsFor(base);
      var here := AdmittedSettings(actions[i], i, base, list);
      var rest := AdmittedFrom(actions, i - 1, if list == [] then base else base.(settings := Some(Last(list))));
      here + rest
  }

  /** Actions are tried from the last to the first: the indices of the admitted pairs never increase. */
  lemma {:induction false} AdmittedFromOrdered(actions: seq<Action>, i: int, base: StackData)
    requires i < |actions|
    ensures forall j :: 0 <= j < |AdmittedFrom(actions, i, base)| ==> 0 <= AdmittedFrom(actions, i, base)[j].0 <= i
    ensures forall j, k :: 0 <= j < k < |AdmittedFrom(actions, i, base)| ==>
      AdmittedFrom(actions, i, base)[j].0 >= AdmittedFrom(actions, i, base)[k].0
    decreases i + 1
  {
    if i >= 0 {
      var list := actions[i].settingsFor(base);
      var next := if list == [] then base else base.(settings := Some(Last(list)));
      var here := AdmittedSettings(actions[i], i, base, list);
      var rest := AdmittedFrom(actions, i - 1, next);
      AdmittedSettingsExact(actions[i], i, base, list);
      AdmittedFromOrdered(actions, i - 1, next);
      DescendingConcat(here, rest, i);
    }

  }

  /** The action indices of `r` are at most `i` and never increase. */
  ghost predicate Descending(r: seq<(nat, StateMap)>, i: int)
  {
    && (forall j :: 0 <= j < |r| ==> 0 <= r[j].0 <= i)
    && (forall j, k :: 0 <= j < k < |r| ==> r[j].0 >= r[k].0)
  }

  /** Pairs all for action `i`, followed by descending pairs of the actions before it, are descending. */
  lemma DescendingConcat(here: seq<(nat, StateMap)>, rest: seq<(nat, StateMap)>, i: int)
    requires forall p :: p in here ==> p.0 == i
    requires Descending(rest, i - 1)
    ensures Descending(here + rest, i)
  {
    var r := here + rest;
    forall j | 0 <= j < |r| ensures 0 <= r[j].0 <= i {
      if j >= |here| {
        assert r[j] == rest[j - |here|];
      } else {
        assert r[j] == here[j] && here[j] in here;
      }
    }
    forall j, k | 0 <= j < k < |r| ensures r[j].0 >= r[k].0 {
      if k >= |here| {
        assert r[k] == rest[k - |here|];
        if j >= |here| { assert r[j] == rest[j - |here|]; } else { assert r[j] == here[j] && here[j] in here; }
      } else {
        assert r[j] == here[j] && here[j] in here && r[k] == here[k] && here[k] in here;
      }
    }
  }

  /** The pairs still to come once action `i` has been expanded: those of the actions before it. */
  lemma AdmittedFromSplit(actions: seq<Action>, i: nat, sd: StackData, done: seq<(nat, StateMap)>, all: seq<(nat, StateMap)>)
    requires i < |actions|
    requires all == done + AdmittedFrom(actions, i, sd)
    ensures var list := actions[i].settingsFor(sd);
      all == (done + AdmittedSettings(actions[i], i, sd, list))
             + AdmittedFrom(actions, i - 1, if list == [] then sd else sd.(settings := Some(Last(list))))
  {
    var list := actions[i].settingsFor(sd);
    ConcatAssoc(done, AdmittedSettings(actions[i], i, sd, list),
      AdmittedFrom(actions, i - 1, if list == [] then sd else sd.(settings := Some(Last(list)))));
  }

  lemma ConcatAssoc<T>(a: seq<T>, b: seq<T>, c: seq<T>)
    ensures a + (b + c) == (a + b) + c
  {
  }

  /** The last element of a non-empty list. */
  function Last<T>(s: seq<T>): T
    requires s != []
  {
    s[|s| - 1]
  }

  /** The weight of the heuristic in a node's cost (`heuristicMultiplier`, never changed). */
  const HEURISTIC_MULTIPLIER: real := 1.0

  class Node {
    const cost: real
    const agent: Agent
    const parent: Node?
    const action: Option<nat>
    const actionSettings: Option<StateMap>
    var state: State?
    const g: real
    const h: real
    /**
     * The pairs of the state `init` writes into `goalMergedWithWorld`. That
     * state is private to the node and nothing changes it after `init`, so
     * the model keeps its pairs.
     */
    const goalMergedWithWorld: StateMap
    var expandList: seq<Node>
    var priority: real
    var queueIndex: int
    var goal: State?
    var effects: Option<StateMap>
    var preconditions: Option<StateMap>
    /** The chain of parents, nearest first, as it was when this node was made. */
    ghost const ancestors: seq<Node>
    /** The goal's pairs as the node was made. */
    ghost const madeGoal: StateMap
    /** The stack the node's action was shown when the node was made. */
    ghost const madeStack: StackData
    /** The agent's world state as the node was made. */
    ghost const madeWorld: StateMap

    /**
     * The goal the node was made with is the one its action leaves: the
     * pairs of the stack's goal its effects do not satisfy, plus its
     * preconditions, all of them when the stack's goal fits the count.
     */
    ghost predicate GoalMade()
    {
      action.Some? && action.value < |agent.actions| ==>
        && SubMap(madeGoal, ChildGoal(agent.actions[action.value], madeStack))
        && (Fits(madeStack.goalState) ==> madeGoal == ChildGoal(agent.actions[action.value], madeStack))
    }
    /**
     * Which program built the node: `false` for `init` as written, whose
     * two-argument `missingDifference(world, diff)` leaves `goalMergedWithWorld`
     * empty; `true` for the intended call that writes the goal's pairs the
     * world lacks. Children are built the way their parent was.
     */
    const corrected: bool

    /**
     * In the corrected build `goalMergedWithWorld` is empty exactly when the
     * world the node was made in holds every pair of the goal it was made with.
     */
    ghost predicate Merged()
    {
      corrected ==> (goalMergedWithWorld == map[] <==> SubMap(madeGoal, madeWorld))
    }

    /** The node has not been recycled. */
    predicate Live()
      reads this`state, this`goal
    {
      state != null && goal != null
    }

    /** `ancestors` lists the parent chain up to a root, nearest first. */
    ghost predicate Chain()
      decreases |ancestors|
    {
      if parent == null then ancestors == []
      else ancestors != [] && ancestors[0] == parent && parent.ancestors == ancestors[1..] && parent.Chain()
    }

    /**
     * `instantiate(planner, newGoal, parent, action, settings)`. A child starts
     * from a copy of its parent's state and path cost, a root from a copy of
     * the world state. With an action, the action's cost is added, its effects
     * are merged into the state, and the goal becomes a copy of `newGoal`
     * without the pairs the effects satisfy, plus the action's preconditions.
     * Without an action the node uses `newGoal` itself. Then h is the goal's
     * size, cost = g + h, and `goalMergedWithWorld`, which decides `isGoal`,
     * is left empty as written or is the goal minus the world as intended.
     */
    constructor Instantiate(agent: Agent, newGoal: State, parent: Node?, action: Option<nat>, settings: Option<StateMap>,
                            corrected: bool)
      requires action.Some? ==> action.value < |agent.actions|
      requires parent != null ==> parent.state != null
      ensures this.agent == agent && this.parent == parent && this.action == action && this.corrected == corrected
      ensures actionSettings == settings && expandList == [] && queueIndex == 0
      ensures Live() && fresh(state)
      ensures ancestors == if parent == null then [] else [parent] + parent.ancestors
      ensures action.None? ==>
        && goal == newGoal
        && state.Values() == old(if parent != null then parent.state.Values() else agent.world.Values())
        && g == (if parent != null then parent.g else 0.0)
      ensures action.Some? ==>
        var base := old(if parent != null then parent.state.Values() else agent.world.Values());
        var a := agent.actions[action.value];
        var sd := StackData(base, old(newGoal.Values()), action, settings);
        && fresh(goal)
        && state.Values() == ChildState(a, sd)
        && g == (if parent != null then parent.g else 0.0) + ChildCost(a, sd)
        && SubMap(goal.Values(), ChildGoal(a, sd))
        && (Fits(old(newGoal.Values())) ==> goal.Values() == ChildGoal(a, sd))
      ensures madeStack == StackData(old(if parent != null then parent.state.Values() else agent.world.Values()),
                                     old(newGoal.Values()), action, settings)
      ensures GoalMade() && Merged() && madeWorld == old(agent.world.Values())
      ensures madeGoal == goal.Values() && h == |goal.Values()| as real && cost == g + h * HEURISTIC_MULTIPLIER
      ensures !corrected ==> goalMergedWithWorld == map[] && IsGoal(null)
      ensures corrected && Fits(goal.Values()) ==>
        goalMergedWithWorld == Missing(goal.Values(), agent.world.Values())
    {
      var st: State;
      var pathCost := 0.0;
      if parent != null {
        st := parent.state.Clone();
        pathCost := parent.g;
      } else {
        st := agent.world.Clone();
      }
      var gl := newGoal;
      ghost var made := StackData(st.Values(), newGoal.Values(), action, settings);
      var pre, eff: Option<StateMap> := None, None;
      if action.Some? {
        var a := agent.actions[action.value];
        var stackData := StackData(st.Values(), newGoal.Values(), action, settings);
        pre, eff := Some(a.preconditionsFor(stackData)), Some(a.effectsFor(stackData));
        pathCost := pathCost + ChildCost(a, stackData);
        gl := ApplyAction(st, newGoal, pre.value, eff.value);
      }
      var remaining := gl.GetSize() as real;
      var diff := MergedWithWorldState(gl, agent.world, corrected);
      this.agent := agent;
      this.parent := parent;
      this.action := action;
      this.corrected := corrected;
      actionSettings := settings;
      expandList := [];
      queueIndex := 0;
      priority := 0.0;
      state, goal, g, h := st, gl, pathCost, remaining;
      preconditions, effects := pre, eff;
      cost := pathCost + remaining * HEURISTIC_MULTIPLIER;
      goalMergedWithWorld := diff.Values();
      madeWorld := agent.world.Values();
      madeGoal := gl.Values();
      madeStack := made;
      ancestors := if parent == null then [] else [parent] + parent.ancestors;
    }

    /** The stack `expand` starts from: this node's state, goal and action, no settings. */
    ghost function ExpandStack(): StackData
      reads this`state, this`goal, state, goal
      requires Live()
    {
      StackData(state.Values(), goal.Values(), action, None)
    }

    /**
     * `expand()`: for each action from the last to the first and each of its
     * settings, a child node is made when the action's effects meet some goal
     * pair, neither its preconditions (unless its effects fix them) nor its
     * effects conflict with the goal, and its procedural check passes.
     */
    method Expand() returns (children: seq<Node>)
      requires Live()
      modifies this`expandList
      ensures children == expandList
      ensures forall i :: 0 <= i < |children| ==> fresh(children[i])
      ensures ChildrenOf(children, this, ancestors, agent, ExpandStack(),
        AdmittedFrom(agent.actions, |agent.actions| - 1, ExpandStack()))
    {
      children := MakeChildren();
      expandList := children;
    }

    /** The children `expand` makes, before they are stored in `expandList`. */
    method MakeChildren() returns (children: seq<Node>)
      requires Live()
      ensures forall i :: 0 <= i < |children| ==> fresh(children[i])
      ensures ChildrenOf(children, this, ancestors, agent, ExpandStack(),
        AdmittedFrom(agent.actions, |agent.actions| - 1, ExpandStack()))
    {
      children := [];
      var stackData := StackData(state.Values(), goal.Values(), action, None);
      var actions := agent.actions;
      ghost var base := stackData;
      ghost var done: seq<(nat, StateMap)> := [];
      var index := |actions| - 1;
      while index >= 0
        invariant -1 <= index < |actions|
        invariant stackData == base.(settings := stackData.settings)
        invariant AdmittedFrom(actions, |actions| - 1, base) == done + AdmittedFrom(actions, index, stackData)
        invariant forall c :: c in children ==> fresh(c)
        invariant ChildrenOf(children, this, ancestors, agent, base, done)
        decreases index + 1
      {
        stackData, children, done := ExpandStep(index, base, stackData, done, children);
        index := index - 1;
      }
      assert done + AdmittedFrom(actions, index, stackData) == done;
      assert forall i :: 0 <= i < |children| ==> children[i] in children;
    }

    /** One turn of the actions loop of `expand`: the children of the action at `index` join those made so far. */
    method ExpandStep(index: nat, ghost base: StackData, stackData: StackData, ghost done: seq<(nat, StateMap)>, children: seq<Node>)
      returns (stackData': StackData, children': seq<Node>, ghost done': seq<(nat, StateMap)>)
      requires Live() && index < |agent.actions| && base == ExpandStack()
      requires stackData == base.(settings := stackData.settings)
      requires AdmittedFrom(agent.actions, |agent.actions| - 1, base) == done + AdmittedFrom(agent.actions, index, stackData)
      requires ChildrenOf(children, this, ancestors, agent, base, done)
      ensures stackData' == base.(settings := stackData'.settings)
      ensures AdmittedFrom(agent.actions, |agent.actions| - 1, base) == done' + AdmittedFrom(agent.actions, index - 1, stackData')
      ensures ChildrenOf(children', this, ancestors, agent, base, done')
      ensures forall c :: c in children' ==> c in children || fresh(c)
    {
      var actions := agent.actions;
      ghost var added := AdmittedSettings(actions[index], index, stackData, actions[index].settingsFor(stackData));
      AdmittedFromSplit(actions, index, stackData, done, AdmittedFrom(actions, |actions| - 1, base));
      var kids;
      stackData', kids := ExpandAction(index, stackData);
      ChildrenRebase(kids, this, ancestors, agent, stackData, base, added);
      ChildrenConcat(children, kids, this, ancestors, agent, base, done, added);
      children' := children + kids;
      done' := done + added;
    }

    /**
     * The body of `expand`'s loop for the action at `index`: the children made
     * for its admitted settings, and the stack as the loop leaves it.
     */
    method ExpandAction(index: nat, entry: StackData) returns (exit: StackData, kids: seq<Node>)
      requires Live() && index < |agent.actions|
      requires entry.currentState == state.Values() && entry.goalState == goal.Values()
      ensures exit == (if agent.actions[index].settingsFor(entry) == [] then entry
        else entry.(settings := Some(Last(agent.actions[index].settingsFor(entry)))))
      ensures forall c :: c in kids ==> fresh(c)
      ensures ChildrenOf(kids, this, ancestors, agent, entry,
        AdmittedSettings(agent.actions[index], index, entry, agent.actions[index].settingsFor(entry)))
    {
      var settingsList := agent.actions[index].settingsFor(entry);
      kids := [];
      exit := entry;
      var j := 0;
      while j < |settingsList|
        invariant 0 <= j <= |settingsList|
        invariant exit == (if j == 0 then entry else entry.(settings := Some(settingsList[j - 1])))
        invariant forall c :: c in kids ==> fresh(c)
        invariant ChildrenOf(kids, this, ancestors, agent, entry, AdmittedSettings(agent.actions[index], index, entry, settingsList[..j]))
      {
        exit := entry.(settings := Some(settingsList[j]));
        kids := ExpandSetting(index, entry, j, kids);
        j := j + 1;
      }
      assert settingsList[..j] == settingsList;
    }

    /** One turn of the settings loop of `expand`: the child for the `j`-th settings joins those made so far, when admitted. */
    method ExpandSetting(index: nat, entry: StackData, j: nat, kids: seq<Node>) returns (kids': seq<Node>)
      requires Live() && index < |agent.actions| && j < |agent.actions[index].settingsFor(entry)|
      requires entry.currentState == state.Values() && entry.goalState == goal.Values()
      requires ChildrenOf(kids, this, ancestors, agent, entry,
        AdmittedSettings(agent.actions[index], index, entry, agent.actions[index].settingsFor(entry)[..j]))
      ensures forall c :: c in kids' ==> c in kids || fresh(c)
      ensures ChildrenOf(kids', this, ancestors, agent, entry,
        AdmittedSettings(agent.actions[index], index, entry, agent.actions[index].settingsFor(entry)[..j + 1]))
    {
      var possibleAction := agent.actions[index];
      var settingsList := possibleAction.settingsFor(entry);
      var settings := settingsList[j];
      AdmittedPrefix(possibleAction, index, entry, settingsList, j);
      var child := TryCandidate(index, entry, settings);
      ChildrenConcat(kids, child, this, ancestors, agent, entry, AdmittedSettings(possibleAction, index, entry, settingsList[..j]),
        if Admits(possibleAction, entry.(settings := Some(settings))) then [(index, settings)] else []);
      kids' := kids + child;
    }

    /** One candidate of `expand`: the child for action `index` with `settings`, when the action is admitted. */
    method TryCandidate(index: nat, entry: StackData, settings: StateMap) returns (child: seq<Node>)
      requires Live() && index < |agent.actions|
      requires entry.currentState == state.Values() && entry.goalState == goal.Values()
      ensures forall i :: 0 <= i < |child| ==> fresh(child[i])
      ensures ChildrenOf(child, this, ancestors, agent, entry,
        if Admits(agent.actions[index], entry.(settings := Some(settings))) then [(index, settings)] else [])
    {
      var admitted := CheckAdmits(agent.actions[index], entry.(settings := Some(settings)), goal);
      if admitted {
        var c := MakeChild(index, entry, settings);
        child := [c];
      } else {
        child := [];
      }
    }

    /** `instantiate(planner, goal, this, possibleAction, settings)` in `expand`: the child for one admitted pair. */
    method MakeChild(index: nat, entry: StackData, settings: StateMap) returns (child: Node)
      requires Live() && index < |agent.actions|
      requires entry.currentState == state.Values() && entry.goalState == goal.Values()
      ensures fresh(child) && ChildOf(child, this, ancestors, agent, entry, (index, settings))
    {
      var newGoal := goal;
      child := new Node.Instantiate(agent, newGoal, this, Some(index), Some(settings), corrected);
    }

    /** `calculatePath()`: one step per node from this one up to, but not including, the root. */
    method CalculatePath() returns (path: seq<ActionState>)
      requires Chain()
      ensures |path| == |ancestors|
      ensures forall k :: 0 <= k < |path| ==>
        var n := if k == 0 then this else ancestors[k - 1];
        path[k] == ActionState(n.action, n.actionSettings)
    {
      path := [];
      var node := this;
      ghost var k := 0;
      while node.parent != null
        invariant 0 <= k <= |ancestors|
        invariant node == if k == 0 then this else ancestors[k - 1]
        invariant node.Chain() && node.ancestors == ancestors[k..]
        invariant |path| == k
        invariant forall i :: 0 <= i < k ==>
          var n := if i == 0 then this else ancestors[i - 1];
          path[i] == ActionState(n.action, n.actionSettings)
        decreases |ancestors| - k
      {
        path := path + [ActionState(node.action, node.actionSettings)];
        assert ancestors[k..][1..] == ancestors[k + 1..];
        node := node.parent;
        k := k + 1;
      }
    }

    /** `compareTo(other)`: `Float.compare` on the costs. */
    function CompareTo(other: Node): (r: int)
      reads this, other
      ensures r == -1 <==> cost < other.cost
      ensures r == 0 <==> cost == other.cost
      ensures r == 1 <==> cost > other.cost
    {
      if cost < other.cost then -1 else if cost > other.cost then 1 else 0
    }

    /** `isGoal(goal)`: the argument is not used; the node is a goal when its goal minus the world is empty. */
    function IsGoal(goalArg: State?): (r: bool)
      ensures r <==> goalMergedWithWorld == map[]
    {
      |goalMergedWithWorld| <= 0
    }

    /** `getName()`: the action's name, or "NoAction" for a node without one. */
    function Name(): (r: string)
      reads this
      ensures action.None? ==> r == "NoAction"
      ensures action.Some? && action.value < |agent.actions| ==> r == agent.actions[action.value].name
    {
      if action.Some? && action.value < |agent.actions| then agent.actions[action.value].name else "NoAction"
    }

    /** `getEffects()` returns the node's goal, not the action's effects. */
    function GetEffects(): (r: State?)
      reads this
      ensures r == goal
    {
      goal
    }

    /** `getPreconditions()` returns the node's goal, not the action's preconditions. */
    function GetPreconditions(): (r: State?)
      reads this
      ensures r == goal
    {
      goal
    }

    /** `recycle()`: the node lets go of its state and goal (returning them to a pool has no other effect here). */
    method Recycle()
      modifies this`state, this`goal
      ensures state == null && goal == null && !Live()
    {
      state := null;
      goal := null;
    }

  }

  /** The steps `calculatePath` lists for `n`: its own action and settings, then each ancestor's but the root's. */
  ghost function PathOf(n: Node): seq<ActionState>
  {
    seq(|n.ancestors|, k requires 0 <= k < |n.ancestors| =>
      var m := if k == 0 then n else n.ancestors[k - 1];
      ActionState(m.action, m.actionSettings))
  }

  /**
   * `c` is a child made by `expand` of `parent` (whose stack is `sd`) for the
   * admitted pair `p`: linked to it, built the way the parent was, carrying
   * the action and its settings and the stack it was shown, starting from the
   * parent's state with the action's effects merged in, with the parent's
   * path cost plus the action's cost, h the size of the goal it was made with
   * and cost = g + h. Its goal is the one the action made from the parent's
   * goal (`GoalMade`): within the action's child goal, and equal to it when
   * the parent's goal fits.
   */
  ghost predicate ChildOf(c: Node, parent: Node, parentAncestors: seq<Node>, agent: Agent, sd: StackData, p: (nat, StateMap))
    reads c`state, c`goal, c.state, c.goal, agent.world
  {
    && c.parent == parent && c.ancestors == [parent] + parentAncestors && c.corrected == parent.corrected
    && c.agent == agent && c.action == Some(p.0) && c.actionSettings == Some(p.1)
    && c.Live() && p.0 < |agent.actions|
    && c.state.Values() == ChildState(agent.actions[p.0], sd.(next := Some(p.0), settings := Some(p.1)))
    && c.g == parent.g + ChildCost(agent.actions[p.0], sd.(next := Some(p.0), settings := Some(p.1)))
    && c.cost == c.g + c.h * HEURISTIC_MULTIPLIER
    && c.h == |c.madeGoal| as real
    && c.madeStack == sd.(next := Some(p.0), settings := Some(p.1))
    && c.GoalMade() && c.goal.Values() == c.madeGoal && c.Merged() && c.madeWorld == agent.world.Values()
  }

  /** `kids` are the children `expand` made of `parent` for the admitted `pairs`, in order. */
  ghost predicate ChildrenOf(kids: seq<Node>, parent: Node, parentAncestors: seq<Node>, agent: Agent, sd: StackData, pairs: seq<(nat, StateMap)>)
    reads set c | c in kids :: c`state, set c | c in kids :: c`goal, set c | c in kids :: c.state,
      set c | c in kids :: c.goal, agent.world
  {
    && |kids| == |pairs|
    && forall i :: 0 <= i < |kids| ==> ChildOf(kids[i], parent, parentAncestors, agent, sd, pairs[i])
  }

  lemma ChildrenConcat(a: seq<Node>, b: seq<Node>, parent: Node, parentAncestors: seq<Node>, agent: Agent, sd: StackData,
                       p: seq<(nat, StateMap)>, q: seq<(nat, StateMap)>)
    requires ChildrenOf(a, parent, parentAncestors, agent, sd, p)
    requires ChildrenOf(b, parent, parentAncestors, agent, sd, q)
    ensures ChildrenOf(a + b, parent, parentAncestors, agent, sd, p + q)
  {
    forall i | 0 <= i < |a + b|
      ensures ChildOf((a + b)[i], parent, parentAncestors, agent, sd, (p + q)[i])
    {
      if i < |a| {
        assert (a + b)[i] == a[i] && (p + q)[i] == p[i];
      } else {
        assert (a + b)[i] == b[i - |a|] && (p + q)[i] == q[i - |a|];
      }
    }
  }

  /** A child's state does not depend on the settings the stack carried before. */
  lemma ChildrenRebase(kids: seq<Node>, parent: Node, parentAncestors: seq<Node>, agent: Agent, sd: StackData, base: StackData,
                       pairs: seq<(nat, StateMap)>)
    requires sd == base.(settings := sd.settings)
    requires ChildrenOf(kids, parent, parentAncestors, agent, sd, pairs)
    ensures ChildrenOf(kids, parent, parentAncestors, agent, base, pairs)
  {
    forall i | 0 <= i < |kids|
      ensures ChildOf(kids[i], parent, parentAncestors, agent, base, pairs[i])
    {
      var p := pairs[i];
      assert sd.(next := Some(p.0), settings := Some(p.1)) == base.(next := Some(p.0), settings := Some(p.1));
    }
  }

  /** `AdmittedSettings` over a list grown by one settings: the pairs so far, then that one if it is admitted. */
  lemma {:induction false} AdmittedSnoc(a: Action, index: nat, base: StackData, list: seq<StateMap>, s: StateMap)
    ensures AdmittedSettings(a, index, base, list + [s])
      == AdmittedSettings(a, index, base, list)
         + (if Admits(a, base.(settings := Some(s))) then [(index, s)] else [])
  {
    if list == [] {
      assert [] + [s] == [s];
    } else {
      assert (list + [s])[1..] == list[1..] + [s];
      AdmittedSnoc(a, index, base, list[1..], s);
      var head := if Admits(a, base.(settings := Some(list[0]))) then [(index, list[0])] else [];
      var last := if Admits(a, base.(settings := Some(s))) then [(index, s)] else [];
      ConcatAssoc(head, AdmittedSettings(a, index, base, list[1..]), last);
    }
  }

  /** One more settings of the list has been tried. */
  lemma AdmittedPrefix(a: Action, index: nat, base: StackData, list: seq<StateMap>, j: nat)
    requires j < |list|
    ensures AdmittedSettings(a, index, base, list[..j + 1])
      == AdmittedSettings(a, index, base, list[..j])
         + (if Admits(a, base.(settings := Some(list[j]))) then [(index, list[j])] else [])
  {
    assert list[..j + 1] == list[..j] + [list[j]];
    AdmittedSnoc(a, index, base, list[..j], list[j]);
  }

  /** `expand`'s test for one action and settings, made through the state operations. */
  method CheckAdmits(a: Action, sd: StackData, goal: State) returns (ok: bool)
    requires goal.Values() == sd.goalState
    ensures ok == Admits(a, sd)
  {
    var precond := new State.FromMap(a.preconditionsFor(sd));
    var effects := new State.FromMap(a.effectsFor(sd));
    var any := effects.HasAny(goal);
    var conflictUnlessChanged := goal.HasAnyConflictUnlessChanged(effects, precond);
    var conflict := goal.HasAnyConflict(effects);
    ok := any && !conflictUnlessChanged && !conflict && a.procedural(sd);
  }

  /**
   * The action step of `init`: the effects are merged into `state`, and the
   * new goal is a copy of `newGoal` without the pairs the effects satisfy,
   * with the preconditions added.
   */
  method ApplyAction(state: State, newGoal: State, pre: StateMap, eff: StateMap) returns (goal: State)
    modifies state
    ensures fresh(goal)
    ensures state.Values() == old(state.Values()) + eff
    ensures SubMap(goal.Values(), Missing(old(newGoal.Values()), eff) + pre)
    ensures Fits(old(newGoal.Values())) ==> goal.Values() == Missing(old(newGoal.Values()), eff) + pre
  {
    goal := newGoal.Clone();
    var preconditions := new State.FromMap(pre);
    var effects := new State.FromMap(eff);
    state.AddFromState(effects);
    ghost var narrowed := Missing(goal.Values(), eff);
    var _ := goal.ReplaceWithAllMissing(effects);
    ghost var kept := goal.Values();
    goal.AddFromState(preconditions);
    NarrowedThenExtended(kept, narrowed, pre);
  }

  /**
   * The last step of `init` as intended: the goal's pairs the world does not
   * hold, written into a fresh state (`missingDifference(world, diff, MAX_VALUE)`).
   */
  method DifferenceFromWorld(goal: State, world: State) returns (diff: State)
    ensures fresh(diff)
    ensures diff.Values() == map[] <==> SubMap(goal.Values(), world.Values())
    ensures Fits(goal.Values()) ==> diff.Values() == Missing(goal.Values(), world.Values())
  {
    diff := new State.Instantiate(null);
    var count := goal.MissingDifferenceInto(world, diff, JavaMath.INT_MAX);
    MergedWithWorld(goal.Values(), world.Values(), diff.Values(), count);
  }

  /** The last step of `init`, as written or as intended. */
  method MergedWithWorldState(goal: State, world: State, corrected: bool) returns (diff: State)
    ensures fresh(diff)
    ensures !corrected ==> diff.Values() == map[]
    ensures corrected ==> (diff.Values() == map[] <==> SubMap(goal.Values(), world.Values()))
    ensures corrected && Fits(goal.Values()) ==> diff.Values() == Missing(goal.Values(), world.Values())
  {
    if corrected {
      diff := DifferenceFromWorld(goal, world);
    } else {
      diff := DifferenceAsWritten(goal, world);
    }
  }

  /**
   * The last step of `init` as written: `missingDifference(world, diff)`
   * counts the missing pairs but writes none of them, so `diff` stays empty
   * whatever the goal and the world.
   */
  method DifferenceAsWritten(goal: State, world: State) returns (diff: State)
    ensures fresh(diff) && diff.Values() == map[]
  {
    diff := new State.Instantiate(null);
    var _ := goal.MissingDifferenceIgnoring(world, diff);
  }

  /** Merging effects then preconditions is what the constructor promises of the goal. */
  lemma NarrowedThenExtended(kept: StateMap, narrowed: StateMap, pre: StateMap)
    requires SubMap(kept, narrowed)
    ensures SubMap(kept + pre, narrowed + pre)
  {
  }

  /** What `isGoal` reads off the difference written by `missingDifference(world, diff)`. */
  lemma MergedWithWorld(goal: StateMap, world: StateMap, diff: StateMap, count: nat)
    requires count == BoundedCount(|Missing(goal, world)|, JavaMath.INT_MAX)
    requires exists w :: Written(w, goal, world, count) && diff == map[] + w
    ensures diff == map[] <==> SubMap(goal, world)
    ensures Fits(goal) ==> diff == Missing(goal, world)
  {
    var w :| Written(w, goal, world, count) && diff == map[] + w;
    assert diff == w;
    NoMissingMeansSatisfied(goal, world);
    CountBound(Missing(goal, world).Keys, goal.Keys);
  }
}
