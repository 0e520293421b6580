/**
 * `ReGoapPlanner`: picks the agent's goals in descending priority, skips a
 * goal the agent's actions and world state cannot satisfy, and runs A* from a
 * root node for the goal until a goal node with a nonempty path turns up.
 */
module GoapPlanner {
  import opened Wrappers
  import opened GoapState
  import opened GoapNode
  import opened AStarSearch
  import JavaMath

  /** `ReGoapPlannerSettings`. */
  datatype Settings = Settings(
    planningEarlyExit: bool,
    maxIterations: int,
    maxNodesToExpand: int,
    usingDynamicActions: bool,
    debugPlan: bool)

  /** The field initialisers of `ReGoapPlannerSettings`. */
  const DEFAULT_SETTINGS: Settings := Settings(false, 1000, 10000, false, false)

  /** The queue of steps `calculatePath` builds and `setPlan` stores. */
  class Path {
    const steps: seq<ActionState>

    constructor (steps: seq<ActionState>)
      ensures this.steps == steps
    {
      this.steps := steps;
    }
  }

  /**
   * A goal of the agent: its goal state, priority and possibility as the
   * planner reads them, and the plan `setPlan` gives it.
   */
  class Goal {
    const goalState: State
    const priority: real
    const possible: bool
    var plan: Path?

    constructor (goalState: State, priority: real, possible: bool)
      ensures this.goalState == goalState && this.priority == priority && this.possible == possible
      ensures plan == null
    {
      this.goalState := goalState;
      this.priority := priority;
      this.possible := possible;
      plan := null;
    }
  }

  /** The goals of `goals`, in order, that are not the blacklisted one and report themselves possible. */
  function Eligible(goals: seq<Goal>, blacklistGoal: Goal?): seq<Goal>
  {
    if goals == [] then []
    else
      var g := goals[|goals| - 1];
      Eligible(goals[..|goals| - 1], blacklistGoal) + (if g != blacklistGoal && g.possible then [g] else [])
  }

  /** A goal is a candidate exactly when it is one of the agent's goals, not blacklisted, and possible. */
  lemma {:induction false} EligibleMembers(goals: seq<Goal>, blacklistGoal: Goal?)
    ensures forall g :: g in Eligible(goals, blacklistGoal) <==> g in goals && g != blacklistGoal && g.possible
  {
    if goals != [] {
      var init := goals[..|goals| - 1];
      EligibleMembers(init, blacklistGoal);
      assert goals == init + [goals[|goals| - 1]];
    }
  }

  /** Priorities never decrease along `s`. */
  ghost predicate Ascending(s: seq<Goal>)
  {
    forall i, j :: 0 <= i < j < |s| ==> s[i].priority <= s[j].priority
  }

  /** `g` placed after every element of the ascending `sorted` whose priority is not above its own. */
  function InsertByPriority(sorted: seq<Goal>, g: Goal): seq<Goal>
  {
    if sorted == [] || sorted[|sorted| - 1].priority <= g.priority then sorted + [g]
    else InsertByPriority(sorted[..|sorted| - 1], g) + [sorted[|sorted| - 1]]
  }

  /**
   * `possibleGoals.sort(...)` by `Float.compare` on the priorities: a stable
   * insertion sort, as `List.sort` is stable.
   */
  function SortByPriority(goals: seq<Goal>): seq<Goal>
  {
    if goals == [] then []
    else InsertByPriority(SortByPriority(goals[..|goals| - 1]), goals[|goals| - 1])
  }

  /** Dropping the last goal of an ascending list leaves it ascending, below the dropped goal. */
  lemma AscendingInit(s: seq<Goal>)
    requires Ascending(s) && s != []
    ensures Ascending(s[..|s| - 1])
    ensures forall x :: x in s[..|s| - 1] ==> x.priority <= s[|s| - 1].priority
  {
    forall x | x in s[..|s| - 1] ensures x.priority <= s[|s| - 1].priority {
      var i :| 0 <= i < |s| - 1 && s[i] == x;
    }
  }

  /** A goal whose priority is not below any of an ascending list's can follow it. */
  lemma AscendingAppend(s: seq<Goal>, x: Goal)
    requires Ascending(s) && forall y :: y in s ==> y.priority <= x.priority
    ensures Ascending(s + [x])
  {
    forall i, j | 0 <= i < j < |s + [x]| ensures (s + [x])[i].priority <= (s + [x])[j].priority {
      if j == |s| {
        assert s[i] in s;
      }
    }
  }

  lemma {:induction false} InsertKeepsOrder(sorted: seq<Goal>, g: Goal)
    requires Ascending(sorted)
    ensures Ascending(InsertByPriority(sorted, g))
    ensures multiset(InsertByPriority(sorted, g)) == multiset(sorted) + multiset{g}
    ensures forall x :: x in InsertByPriority(sorted, g) ==> x in sorted || x == g
    decreases |sorted|
  {
    if sorted == [] || sorted[|sorted| - 1].priority <= g.priority {
      AscendingAppend(sorted, g);
    } else {
      var init := sorted[..|sorted| - 1];
      var last := sorted[|sorted| - 1];
      AscendingInit(sorted);
      InsertKeepsOrder(init, g);
      var ins := InsertByPriority(init, g);
      AscendingAppend(ins, last);
      assert sorted == init + [last];
    }
  }

  /** The sorted goals are in ascending priority and are the same goals, as often as before. */
  lemma {:induction false} SortByPriorityCorrect(goals: seq<Goal>)
    ensures Ascending(SortByPriority(goals))
    ensures multiset(SortByPriority(goals)) == multiset(goals)
  {
    if goals != [] {
      var init := goals[..|goals| - 1];
      SortByPriorityCorrect(init);
      InsertKeepsOrder(SortByPriority(init), goals[|goals| - 1]);
      assert goals == init + [goals[|goals| - 1]];
    }
  }

  /** `s` back to front. */
  function Reversed(s: seq<Goal>): (r: seq<Goal>)
    ensures |r| == |s|
    ensures forall i :: 0 <= i < |s| ==> r[i] == s[|s| - 1 - i]
  {
    if s == [] then [] else [s[|s| - 1]] + Reversed(s[..|s| - 1])
  }

  /** The order `plan` tries goals in: the sorted candidates popped from the end. */
  function Order(goals: seq<Goal>, blacklistGoal: Goal?): seq<Goal>
  {
    Reversed(SortByPriority(Eligible(goals, blacklistGoal)))
  }

  /** The sorted candidates are all goals of the agent. */
  lemma SortedMembers(goals: seq<Goal>, blacklistGoal: Goal?)
    ensures forall g :: g in SortByPriority(Eligible(goals, blacklistGoal)) ==> g in goals
  {
    SortByPriorityCorrect(Eligible(goals, blacklistGoal));
    EligibleMembers(goals, blacklistGoal);
    forall g | g in SortByPriority(Eligible(goals, blacklistGoal)) ensures g in goals {
      assert g in multiset(SortByPriority(Eligible(goals, blacklistGoal)));
    }
  }

  /**
   * Goals are tried in descending priority, and the goals tried are exactly
   * the candidates: each of the agent's goals that is not blacklisted and is
   * possible, as often as it appears.
   */
  lemma OrderDescending(goals: seq<Goal>, blacklistGoal: Goal?)
    ensures forall i, j :: 0 <= i < j < |Order(goals, blacklistGoal)| ==>
      Order(goals, blacklistGoal)[i].priority >= Order(goals, blacklistGoal)[j].priority
    ensures forall g :: g in Order(goals, blacklistGoal) <==> g in goals && g != blacklistGoal && g.possible
  {
    var e := Eligible(goals, blacklistGoal);
    var s := SortByPriority(e);
    SortByPriorityCorrect(e);
    EligibleMembers(goals, blacklistGoal);
    ReversedDescending(s);
    forall g ensures g in s <==> g in e {
      assert g in s <==> g in multiset(s);
    }
  }

  /** An ascending sequence read back to front descends, and holds the same goals. */
  lemma ReversedDescending(s: seq<Goal>)
    requires Ascending(s)
    ensures forall i, j :: 0 <= i < j < |Reversed(s)| ==> Reversed(s)[i].priority >= Reversed(s)[j].priority
    ensures forall g :: g in Reversed(s) <==> g in s
  {
    var r := Reversed(s);
    forall g | g in s ensures g in r {
      var i :| 0 <= i < |s| && s[i] == g;
      assert r[|s| - 1 - i] == g;
    }
  }


  /**
   * The goal pairs left once, in the actions' order, each procedurally valid
   * action's effects have removed the pairs they set to the goal's values.
   */
  function Narrow(goal: StateMap, actions: seq<Action>, sd: StackData): StateMap
  {
    if actions == [] then goal
    else
      var rest := Narrow(goal, actions[..|actions| - 1], sd);
      var a := actions[|actions| - 1];
      if a.procedural(sd) then Missing(rest, a.effectsFor(sd)) else rest
  }

  /** Some procedurally valid action among `actions` sets `k` to `v`. */
  ghost predicate Covered(k: Key, v: Val, actions: seq<Action>, sd: StackData)
  {
    exists j :: 0 <= j < |actions| && actions[j].procedural(sd) && k in actions[j].effectsFor(sd) && actions[j].effectsFor(sd)[k] == v
  }

  /** A goal pair survives the narrowing exactly when no procedurally valid action sets it. */
  lemma {:induction false} NarrowMembers(goal: StateMap, actions: seq<Action>, sd: StackData)
    ensures SubMap(Narrow(goal, actions, sd), goal)
    ensures forall k :: k in Narrow(goal, actions, sd) <==> k in goal && !Covered(k, goal[k], actions, sd)
  {
    if actions != [] {
      var init := actions[..|actions| - 1];
      var a := actions[|actions| - 1];
      NarrowMembers(goal, init, sd);
      forall k | k in goal ensures Covered(k, goal[k], actions, sd) <==>
        Covered(k, goal[k], init, sd) || (a.procedural(sd) && k in a.effectsFor(sd) && a.effectsFor(sd)[k] == goal[k])
        {
        if Covered(k, goal[k], actions, sd) {
          var j :| 0 <= j < |actions| && actions[j].procedural(sd) && k in actions[j].effectsFor(sd) && actions[j].effectsFor(sd)[k] == goal[k];
          if j < |init| {
            assert init[j] == actions[j];
          }
        }
        if Covered(k, goal[k], init, sd) {
          var j :| 0 <= j < |init| && init[j].procedural(sd) && k in init[j].effectsFor(sd) && init[j].effectsFor(sd)[k] == goal[k];
          assert actions[j] == init[j];
        }
      }
    }
  }

  /** The stack data of the feasibility check: the world and the goal, no next action, no settings. */
  function CheckStack(world: StateMap, goal: StateMap): StackData
  {
    StackData(world, goal, None, None)
  }

  /** What the feasibility check leaves of the goal once the world state is folded in too. */
  function Residual(goal: StateMap, world: StateMap, actions: seq<Action>): StateMap
  {
    Missing(Narrow(goal, actions, CheckStack(world, goal)), world)
  }

  /**
   * The check passes exactly when every goal pair already holds in the world
   * or is set by the effects of a procedurally valid action.
   */
  lemma ResidualEmpty(goal: StateMap, world: StateMap, actions: seq<Action>)
    ensures Residual(goal, world, actions) == map[] <==>
      forall k :: k in goal ==> (k in world && world[k] == goal[k]) || Covered(k, goal[k], actions, CheckStack(world, goal))
  {
    var sd := CheckStack(world, goal);
    NarrowMembers(goal, actions, sd);
    var n := Narrow(goal, actions, sd);
    if Residual(goal, world, actions) == map[] {
      forall k | k in goal && !Covered(k, goal[k], actions, sd)
        ensures k in world && world[k] == goal[k]
      {
        assert k in n && n[k] == goal[k];
        assert k !in Missing(n, world);
      }
    } else {
      var k :| k in Residual(goal, world, actions);
      assert k in n && n[k] == goal[k];
    }
  }

  /** A map inside a map of at most `Integer.MAX_VALUE` pairs has at most that many too. */
  lemma SubMapFits(m: StateMap, big: StateMap)
    requires SubMap(m, big) && Fits(big)
    ensures Fits(m) && |m| <= |big|
  {
    assert m.Keys <= big.Keys;
    SubsetCard(m.Keys, big.Keys);
  }

  /**
   * The check `plan` makes before searching when actions are static, with
   * `missingDifference(other, difference)` writing into `difference`: the
   * goal is narrowed by the effects of each procedurally valid action, then by
   * the world state, and it is feasible when nothing is left.
   */
  method Precheck(agent: Agent, goalState: State) returns (feasible: bool)
    ensures Fits(goalState.Values()) ==>
      (feasible <==> Residual(goalState.Values(), agent.world.Values(), agent.actions) == map[])
  {
    var goal := goalState.Values();
    var sd := CheckStack(agent.world.Values(), goal);
    var wanted := goalState;
    var i := 0;
    while i < |agent.actions|
      invariant 0 <= i <= |agent.actions|
      invariant Fits(goal) ==> wanted.Values() == Narrow(goal, agent.actions[..i], sd)
      invariant wanted == goalState || fresh(wanted)
    {
      var action := agent.actions[i];
      assert agent.actions[..i + 1][..i] == agent.actions[..i];
      if action.procedural(sd) {
        var effects := new State.FromMap(action.effectsFor(sd));
        if Fits(goal) {
          NarrowMembers(goal, agent.actions[..i], sd);
          SubMapFits(wanted.Values(), goal);
        }
        wanted := Subtract(wanted, effects, goal);
      }
      i := i + 1;
    }
    assert agent.actions[..i] == agent.actions;
    if Fits(goal) {
      NarrowMembers(goal, agent.actions, sd);
      SubMapFits(wanted.Values(), goal);
    }
    var residual := Subtract(wanted, agent.world, goal);
    feasible := !(residual.GetSize() > 0);
  }

  /**
   * `previous.missingDifference(other, into)` meant as the overload that
   * writes each missing pair into the fresh state `into`, with no bound on the
   * count: when the goal fits in an `int` count, `into` ends up holding
   * exactly the pairs of `previous` that `other` lacks.
   */
  method Subtract(previous: State, other: State, ghost goal: StateMap) returns (into: State)
    requires Fits(goal) ==> Fits(previous.Values())
    ensures fresh(into)
    ensures Fits(goal) ==> into.Values() == Missing(previous.Values(), other.Values())
  {
    into := new State.Instantiate(null);
    if Fits(goal) {
      MissingPartition(previous.Values(), other.Values());
      SubMapFits(Missing(previous.Values(), other.Values()), previous.Values());
    }
    var _ := previous.MissingDifferenceInto(other, into, JavaMath.INT_MAX);
  }

  /**
   * The check as written: `missingDifference(other, difference)` ignores
   * `difference`, so every step leaves a fresh empty state behind and the
   * check passes for every goal.
   */
  method PrecheckAsWritten(agent: Agent, goalState: State) returns (feasible: bool)
    ensures feasible
  {
    var sd := CheckStack(agent.world.Values(), goalState.Values());
    var wanted := goalState;
    var i := 0;
    while i < |agent.actions|
      invariant 0 <= i <= |agent.actions|
    {
      var action := agent.actions[i];
      if action.procedural(sd) {
        var previous := wanted;
        wanted := new State.Instantiate(null);
        var effects := new State.FromMap(action.effectsFor(sd));
        var _ := previous.MissingDifferenceIgnoring(effects, wanted);
      }
      i := i + 1;
    }
    var current := wanted;
    wanted := new State.Instantiate(null);
    var _ := current.MissingDifferenceIgnoring(agent.world, wanted);
    feasible := !(wanted.GetSize() > 0);
  }

  /**
   * An agent with no actions, an empty world and the goal {"fuel": 1}: the
   * check as written lets the goal through to the search, the corrected
   * check skips it.
   */
  method PrecheckExample() returns (asWritten: bool, corrected: bool)
    ensures asWritten && !corrected
  {
    var world := new State.FromMap(map[]);
    var goal := new State.FromMap(map["fuel" := 1]);
    var agent := Agent(world, []);
    asWritten := PrecheckAsWritten(agent, goal);
    corrected := Precheck(agent, goal);
    assert Residual(goal.Values(), world.Values(), []) == map["fuel" := 1];
  }

  /** How trying one goal ended: skipped, the current plan found again, or a new plan set. */
  datatype Verdict = Skipped | Matched | Planned

  class Planner {
    var goapAgent: Option<Agent>
    var currentGoal: Goal?
    var calculated: bool
    const astar: AStar
    const settings: Settings
    /**
     * Which program the planner runs: `false` for the code as written, whose
     * two-argument `missingDifference` leaves its target empty (so the
     * feasibility check passes every goal and every node counts as a goal);
     * `true` for the intended overload that writes the missing pairs.
     */
    const corrected: bool

    ghost predicate Valid()
      reads astar.frontier, astar.frontier.nodes, astar.frontier.nodes[..]`queueIndex
    {
      astar.Valid()
    }

    /** The constructor once its A* search exists. */
    constructor WithParts(settings: Settings, astar: AStar, corrected: bool)
      requires astar.Valid()
      ensures this.settings == settings && this.astar == astar && this.corrected == corrected && Valid()
      ensures goapAgent == None && currentGoal == null && !calculated
    {
      this.settings := settings;
      this.astar := astar;
      this.corrected := corrected;
      goapAgent := None;
      currentGoal := null;
      calculated := false;
    }

    /**
     * The search gets at least one iteration and its queue has room beyond
     * the root and one more node, so the root is always dequeued once.
     */
    ghost predicate Budgeted()
      reads astar.frontier, astar.frontier.nodes
    {
      0 < settings.maxIterations && 2 < astar.frontier.GetMaxSize()
    }

    /** `isPlanning()`: true until a `plan` call completes, including before the first one. */
    predicate IsPlanning()
      reads this
      ensures IsPlanning() <==> !calculated
    {
      !calculated
    }

    /**
     * `plan(agent, blacklistGoal, currentPlan, callback)`. `goals` is the
     * agent's goal set and `callback` says whether a callback was given; the
     * goal it receives is returned in `delivered`. Goals are tried in
     * `Order`; `tried` lists the goals taken from the list. A goal that
     * is skipped, whose search fails or whose path is empty leaves
     * `currentGoal` null and the next goal is tried; a new nonempty plan is
     * set on its goal and ends the loop. An exception from the search ends
     * `plan` before `calculated` is set.
     */
    method Plan(agent: Agent, goals: seq<Goal>, blacklistGoal: Goal?, currentPlan: Path?, callback: bool)
      returns (r: Result<Goal?>, ghost tried: seq<Goal>, ghost delivered: Option<Goal?>, ghost leaf: Node?, ghost root: Node?)
      requires Valid()
      modifies this, goals, astar, astar.frontier, astar.frontier.nodes, astar.createdNodes`state, astar.createdNodes`goal
      ensures Valid() && goapAgent == Some(agent)
      ensures |tried| <= |Order(goals, blacklistGoal)| && tried == Order(goals, blacklistGoal)[..|tried|]
      ensures r.Ok? ==> calculated && !IsPlanning() && currentGoal == r.value
      ensures r.Ok? ==> delivered == if callback then Some(r.value) else None
      ensures r.Err? ==> !calculated && delivered == None && tried != [] && currentGoal == tried[|tried| - 1]
      ensures r.Ok? && r.value != null ==>
        tried != [] && r.value == tried[|tried| - 1] && r.value.plan != null && fresh(r.value.plan) && |r.value.plan.steps| > 0
      ensures r.Ok? && r.value != null ==>
        leaf != null && leaf.Chain() && Reached(leaf) && r.value.plan.steps == PathOf(leaf)
      ensures r.Ok? && r.value != null ==>
        root != null && FoundFrom(leaf, root, r.value.goalState.Values(), agent.world.Values(), corrected)
      ensures r == Ok(null) && currentPlan == null ==> tried == Order(goals, blacklistGoal)
      ensures forall g :: g in goals ==> g.plan == old(g.plan) || (r.Ok? && g == r.value)
      ensures !corrected && Budgeted() ==> r == Ok(null) && tried == Order(goals, blacklistGoal)
    {
      goapAgent := Some(agent);
      calculated := false;
      currentGoal := null;
      var chosen, outcome;
      chosen, outcome, tried, leaf, root := Choose(agent, goals, blacklistGoal, currentPlan);
      currentGoal := chosen;
      if outcome.Pass? {
        calculated := true;
        r := Ok(chosen);
        delivered := if callback then Some(chosen) else None;
      } else {
        r := Err(outcome.error);
        delivered := None;
      }
    }

    /** The goals of `plan` filtered, sorted and tried: the goal the loop ends on, and how it ended. */
    method Choose(agent: Agent, goals: seq<Goal>, blacklistGoal: Goal?, currentPlan: Path?)
      returns (chosen: Goal?, outcome: Outcome, ghost tried: seq<Goal>, ghost leaf: Node?, ghost root: Node?)
      requires Valid()
      modifies goals, astar, astar.frontier, astar.frontier.nodes, astar.createdNodes`state, astar.createdNodes`goal
      ensures Valid()
      ensures |tried| <= |Order(goals, blacklistGoal)| && tried == Order(goals, blacklistGoal)[..|tried|]
      ensures outcome.Fail? ==> tried != [] && chosen == tried[|tried| - 1]
      ensures outcome.Pass? && chosen != null ==>
        tried != [] && chosen == tried[|tried| - 1] && chosen.plan != null && fresh(chosen.plan) && |chosen.plan.steps| > 0
      ensures outcome.Pass? && chosen != null ==>
        leaf != null && leaf.Chain() && Reached(leaf) && chosen.plan.steps == PathOf(leaf)
      ensures outcome.Pass? && chosen != null ==>
        root != null && FoundFrom(leaf, root, chosen.goalState.Values(), agent.world.Values(), corrected)
      ensures outcome.Pass? && chosen == null && currentPlan == null ==> tried == Order(goals, blacklistGoal)
      ensures forall g :: g in goals ==> g.plan == old(g.plan) || (outcome.Pass? && g == chosen)
      ensures !corrected && Budgeted() ==> chosen == null && outcome == Pass && tried == Order(goals, blacklistGoal)
    {
      var possibleGoals := Candidates(goals, blacklistGoal);
      possibleGoals := SortByPriority(possibleGoals);
      SortedMembers(goals, blacklistGoal);
      chosen, outcome, tried, leaf, root := TryGoals(agent, goals, possibleGoals, currentPlan);
    }

    /**
     * The `while` loop of `plan`: pops goals off the end of the sorted
     * candidates until one gets a new plan, the current plan is found again,
     * the search throws, or no goal is left. `chosen` is the value
     * `currentGoal` has when the loop ends.
     */
    method TryGoals(agent: Agent, ghost goals: seq<Goal>, possibleGoals: seq<Goal>, currentPlan: Path?)
      returns (chosen: Goal?, outcome: Outcome, ghost tried: seq<Goal>, ghost leaf: Node?, ghost root: Node?)
      requires Valid()
      requires forall g :: g in possibleGoals ==> g in goals
      modifies goals, astar, astar.frontier, astar.frontier.nodes, astar.createdNodes`state, astar.createdNodes`goal
      ensures Valid() && astar.frontier.nodes == old(astar.frontier.nodes)
      ensures forall n :: n in astar.createdNodes ==> n in old(astar.createdNodes) || fresh(n)
      ensures |tried| <= |possibleGoals| && tried == Reversed(possibleGoals)[..|tried|]
      ensures outcome.Fail? ==> tried != [] && chosen == tried[|tried| - 1]
      ensures outcome.Pass? && chosen != null ==>
        tried != [] && chosen == tried[|tried| - 1] && chosen.plan != null && fresh(chosen.plan) && |chosen.plan.steps| > 0
      ensures outcome.Pass? && chosen != null ==>
        leaf != null && leaf.Chain() && Reached(leaf) && chosen.plan.steps == PathOf(leaf)
      ensures outcome.Pass? && chosen != null ==>
        root != null && FoundFrom(leaf, root, chosen.goalState.Values(), agent.world.Values(), corrected)
      ensures outcome.Pass? && chosen == null && currentPlan == null ==> tried == Reversed(possibleGoals)
      ensures forall g :: g in goals ==> g.plan == old(g.plan) || (outcome.Pass? && g == chosen)
      ensures !corrected && Budgeted() ==> chosen == null && outcome == Pass && tried == Reversed(possibleGoals)
    {
      var left := possibleGoals;
      tried := [];
      var stop := false;
      chosen := null;
      outcome := Pass;
      leaf, root := null, null;
      while |left| > 0 && !stop
        invariant Valid() && astar.frontier.nodes == old(astar.frontier.nodes)
        invariant |left| + |tried| == |possibleGoals| && left == possibleGoals[..|left|]
        invariant forall g :: g in left ==> g in goals
        invariant tried == Reversed(possibleGoals)[..|tried|]
        invariant forall n :: n in astar.createdNodes ==> n in old(astar.createdNodes) || fresh(n)
        invariant !stop ==> chosen == null && outcome == Pass
        invariant outcome.Fail? ==> stop && tried != [] && chosen == tried[|tried| - 1]
        invariant stop && outcome.Pass? && chosen != null ==>
          tried != [] && chosen == tried[|tried| - 1] && chosen.plan != null && fresh(chosen.plan) && |chosen.plan.steps| > 0
        invariant stop && outcome.Pass? && chosen != null ==>
          leaf != null && leaf.Chain() && Reached(leaf) && chosen.plan.steps == PathOf(leaf)
        invariant stop && outcome.Pass? && chosen != null ==>
          root != null && FoundFrom(leaf, root, chosen.goalState.Values(), agent.world.Values(), corrected)
        invariant stop && outcome.Pass? && chosen == null ==> currentPlan != null
        invariant forall g :: g in goals ==> g.plan == old(g.plan) || (stop && outcome.Pass? && g == chosen)
        invariant !corrected && Budgeted() ==> !stop && chosen == null
      {
        var goal := left[|left| - 1];
        assert goal in goals;
        assert forall i :: 0 <= i < |astar.createdNodes| ==> astar.createdNodes[i] in old(astar.createdNodes) || fresh(astar.createdNodes[i]);
        left := left[..|left| - 1];
        tried := tried + [goal];
        chosen := goal;
        var verdict;
        verdict, leaf, root := Attempt(agent, goal, currentPlan);
        if verdict.Err? {
          outcome := Fail(verdict.error);
          stop := true;
        } else if verdict.value == Skipped {
          chosen := null;
        } else if verdict.value == Matched {
          chosen := null;
          stop := true;
        } else {
          stop := true;
        }
      }
    }

    /**
     * The body of the loop of `plan` for one goal: the feasibility check when
     * actions are static, then A* from a root node for a copy of the goal
     * state, then the leaf's path compared with `currentPlan` by identity and
     * set on the goal when it is new and nonempty.
     */
    method Attempt(agent: Agent, goal: Goal, currentPlan: Path?) returns (r: Result<Verdict>, ghost leaf: Node?, ghost root: Node?)
      requires Valid()
      modifies goal`plan, astar, astar.frontier, astar.frontier.nodes, astar.createdNodes`state, astar.createdNodes`goal
      ensures Valid() && astar.frontier.nodes == old(astar.frontier.nodes)
      ensures forall n :: n in astar.createdNodes ==> n in old(astar.createdNodes) || fresh(n)
      ensures (corrected && !settings.usingDynamicActions && Fits(goal.goalState.Values())
        && Residual(goal.goalState.Values(), agent.world.Values(), agent.actions) != map[]) ==> r == Ok(Skipped)
      ensures r == Ok(Matched) ==> currentPlan != null
      ensures r == Ok(Planned) ==> goal.plan != null && fresh(goal.plan) && |goal.plan.steps| > 0
      ensures r == Ok(Planned) ==> leaf != null && leaf.Chain() && Reached(leaf) && goal.plan.steps == PathOf(leaf)
      ensures r == Ok(Planned) ==> root != null && FoundFrom(leaf, root, goal.goalState.Values(), agent.world.Values(), corrected)
      ensures r != Ok(Planned) ==> goal.plan == old(goal.plan)
      ensures !corrected && Budgeted() ==> r == Ok(Skipped)
    {
      var feasible := Feasible(agent, goal.goalState);
      if !feasible {
        r, leaf, root := Ok(Skipped), null, null;
      } else {
        r, leaf, root := SearchPlan(agent, goal, currentPlan);
      }
    }

    /**
     * The check `plan` makes before searching: passed when actions are
     * dynamic; otherwise the check as written, which passes every goal, or the
     * corrected one.
     */
    method Feasible(agent: Agent, goalState: State) returns (feasible: bool)
      ensures settings.usingDynamicActions || !corrected ==> feasible
      ensures corrected && !settings.usingDynamicActions && Fits(goalState.Values()) ==>
        (feasible <==> Residual(goalState.Values(), agent.world.Values(), agent.actions) == map[])
    {
      feasible := true;
      if !settings.usingDynamicActions {
        if corrected {
          feasible := Precheck(agent, goalState);
        } else {
          feasible := PrecheckAsWritten(agent, goalState);
        }
      }
    }

    /** The search part of `Attempt`: A* from a root node, then the leaf's path compared and set on the goal. */
    method SearchPlan(agent: Agent, goal: Goal, currentPlan: Path?) returns (r: Result<Verdict>, ghost leaf: Node?, ghost root: Node?)
      requires Valid()
      modifies goal`plan, astar, astar.frontier, astar.frontier.nodes, astar.createdNodes`state, astar.createdNodes`goal
      ensures Valid() && astar.frontier.nodes == old(astar.frontier.nodes)
      ensures forall n :: n in astar.createdNodes ==> n in old(astar.createdNodes) || fresh(n)
      ensures r == Ok(Matched) ==> currentPlan != null
      ensures r == Ok(Planned) ==> goal.plan != null && fresh(goal.plan) && |goal.plan.steps| > 0
      ensures r == Ok(Planned) ==> leaf != null && leaf.Chain() && Reached(leaf) && goal.plan.steps == PathOf(leaf)
      ensures r == Ok(Planned) ==> root != null && FoundFrom(leaf, root, goal.goalState.Values(), agent.world.Values(), corrected)
      ensures r != Ok(Planned) ==> goal.plan == old(goal.plan)
      ensures !corrected && Budgeted() ==> r == Ok(Skipped)
    {
      leaf := null;
      var found;
      found, root := Search(agent, goal);
      if found.Err? {
        r := Err(found.error);
      } else if found.value == null {
        r := Ok(Skipped);
      } else {
        var node := found.value;
        leaf := node;
        var steps := node.CalculatePath();
        assert steps == PathOf(node);
        var result := new Path(steps);
        if currentPlan != null && currentPlan == result {
          r := Ok(Matched);
        } else if |result.steps| == 0 {
          r := Ok(Skipped);
        } else {
          goal.plan := result;
          r := Ok(Planned);
        }
      }
    }

    /** `astar.run(instantiate(this, goalState.clone(), null, null, null), goalState, ...)` with `debugPlan` as `clearNodes`. */
    method Search(agent: Agent, goal: Goal) returns (leaf: Result<Node?>, ghost root: Node)
      requires Valid()
      modifies astar, astar.frontier, astar.frontier.nodes, astar.createdNodes`state, astar.createdNodes`goal
      ensures Valid() && astar.frontier.nodes == old(astar.frontier.nodes)
      ensures forall n :: n in astar.createdNodes ==> n in old(astar.createdNodes) || fresh(n)
      ensures leaf.Ok? && leaf.value != null ==>
        && leaf.value.Chain() && Reached(leaf.value)
        && FoundFrom(leaf.value, root, goal.goalState.Values(), agent.world.Values(), corrected)
      ensures !corrected && Budgeted() ==> leaf.Ok? && leaf.value != null && leaf.value.ancestors == []
    {
      var start, goalState := Root(agent, goal);
      root := start;
      ghost var iterations;
      leaf, iterations := astar.Run(start, goalState, settings.maxIterations, settings.planningEarlyExit, settings.debugPlan);
    }

    /** `instantiate(this, goalState.clone(), null, null, null)`: the root node of the search for `goal`, and the copied goal state. */
    method Root(agent: Agent, goal: Goal) returns (start: Node, goalState: State)
      ensures fresh(start) && start.Live() && start.Chain() && start.ancestors == [] && start.action.None?
      ensures start.agent == agent && start.corrected == corrected && start.queueIndex == 0 && start.Merged()
      ensures start.madeGoal == goal.goalState.Values() && start.madeWorld == agent.world.Values()
      ensures !corrected ==> Reached(start)
    {
      goalState := goal.goalState.Clone();
      start := new Node.Instantiate(agent, goalState, null, None, None, corrected);
    }
  }

  /**
   * `leaf` was returned by a search from `root`, the root node made for
   * `goalState` in `world`: it descends from that root, and in the corrected
   * build the world holds every pair of the goal the leaf was made with.
   */
  ghost predicate FoundFrom(leaf: Node, root: Node, goalState: StateMap, world: StateMap, corrected: bool)
  {
    && Descends(leaf, root) && root.ancestors == [] && root.action.None?
    && root.madeGoal == goalState && root.madeWorld == world
    && (corrected ==> SubMap(leaf.madeGoal, world))
  }

  /** The `for` loop of `plan` over the agent's goals: the blacklisted goal and impossible goals are left out. */
  method Candidates(goals: seq<Goal>, blacklistGoal: Goal?) returns (possibleGoals: seq<Goal>)
    ensures possibleGoals == Eligible(goals, blacklistGoal)
  {
    possibleGoals := [];
    var i := 0;
    while i < |goals|
      invariant 0 <= i <= |goals| && possibleGoals == Eligible(goals[..i], blacklistGoal)
    {
      var goal := goals[i];
      assert goals[..i + 1][..i] == goals[..i];
      if goal != blacklistGoal && goal.possible {
        possibleGoals := possibleGoals + [goal];
      }
      i := i + 1;
    }
    assert goals[..i] == goals;
  }

  /**
   * `new ReGoapPlanner(settings)`: null settings are a `NullPointerException`;
   * the A* search gets `maxNodesToExpand` nodes, and a size its queue rejects
   * is an error too.
   */
  method Create(settings: Option<Settings>, corrected: bool) returns (r: Result<Planner>)
    requires settings.Some? ==> JavaMath.IsInt(settings.value.maxNodesToExpand)
    ensures r.Err? <==> settings.None? || settings.value.maxNodesToExpand <= 0 || settings.value.maxNodesToExpand == JavaMath.INT_MAX
    ensures settings.None? ==> r == Err(NullPointer)
    ensures r.Ok? ==> fresh(r.value) && r.value.Valid() && r.value.settings == settings.value && r.value.IsPlanning()
    ensures r.Ok? ==> r.value.corrected == corrected
    ensures r.Ok? ==> r.value.astar.frontier.GetMaxSize() == settings.value.maxNodesToExpand
    ensures r.Ok? ==> r.value.currentGoal == null && r.value.goapAgent == None
  {
    if settings.None? {
      return Err(NullPointer);
    }
    var astar := AStarSearch.Create(settings.value.maxNodesToExpand);
    if astar.Err? {
      return Err(astar.error);
    }
    var p := new Planner.WithParts(settings.value, astar.value, corrected);
    return Ok(p);
  }

  /** `new ReGoapPlanner()`: the default settings, whose 10000 nodes the queue accepts. */
  method CreateDefault(corrected: bool) returns (p: Planner)
    ensures fresh(p) && p.Valid() && p.settings == DEFAULT_SETTINGS && p.IsPlanning() && p.corrected == corrected
    ensures p.Budgeted()
  {
    var r := Create(Some(DEFAULT_SETTINGS), corrected);
    p := r.value;
  }
}
