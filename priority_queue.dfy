/**
 * `FastPriorityQueue`: a binary min-heap of search nodes kept in slots
 * 1..count of an array (slot 0 is never used). Each node stores its own slot
 * in `queueIndex`, so membership is a single array lookup. Priorities are
 * Java floats, modelled as reals.
 */
module PriorityQueue {
  import opened Wrappers
  import JavaMath
  import opened GoapNode

  /** `s` with `s[i]` and `s[j]` exchanged. */
  function Swapped<T>(s: seq<T>, i: nat, j: nat): (r: seq<T>)
    requires i < |s| && j < |s|
    ensures |r| == |s| && multiset(r) == multiset(s)
  {
    s[i := s[j]][j := s[i]]
  }

  /** Emptying the second slot of a swap leaves the first slot holding what the second held. */
  lemma SwappedCleared<T>(s: seq<T>, i: nat, j: nat, z: T)
    requires i < |s| && j < |s| && i != j
    ensures Swapped(s, i, j)[j] == s[i]
    ensures Swapped(s, i, j)[j := z] == s[i := s[j]][j := z]
  {
  }

  /** The slots 1..n of an array as a multiset: the queue's contents. */
  ghost function Slots(s: seq<Node?>, n: int): multiset<Node?>
  {
    if 0 <= n < |s| then multiset(s[1..n + 1]) else multiset{}
  }

  /** Writing slot `a` (inside 1..n) replaces one occurrence of its old node by the new one. */
  lemma SlotsUpdate(s: seq<Node?>, n: int, a: int, x: Node?)
    requires 1 <= a <= n < |s|
    ensures Slots(s[a := x], n) == Slots(s, n) - multiset{s[a]} + multiset{x}
  {
    assert s[a := x][1..n + 1] == s[1..n + 1][a - 1 := x];
  }

  /** Writing a node into slot n + 1 adds it to the slots 1..n. */
  lemma SlotsGrow(s: seq<Node?>, n: int, x: Node?)
    requires 0 <= n && n + 1 < |s|
    ensures Slots(s[n + 1 := x], n + 1) == Slots(s, n) + multiset{x}
  {
    assert s[n + 1 := x][1..n + 2] == s[1..n + 1] + [x];
  }

  /** Exchanging two slots inside 1..n leaves the contents alone. */
  lemma SlotsSwap(s: seq<Node?>, n: int, a: nat, b: nat)
    requires 1 <= a <= n < |s| && 1 <= b <= n
    ensures Slots(Swapped(s, a, b), n) == Slots(s, n)
  {
    assert Swapped(s, a, b)[1..n + 1] == Swapped(s[1..n + 1], a - 1, b - 1);
  }

  /** Slot c is a child of slot p (slot 0 is no one's parent). */
  ghost predicate Below(c: int, p: int)
  {
    1 <= p && c / 2 == p
  }

  /**
   * In the slots `s`, no node has a strictly lower priority than the node in
   * its parent slot, except perhaps the node in slot `child` and the children
   * of slot `parent`.
   */
  ghost predicate OrderedIn(s: seq<Node?>, child: int, parent: int)
    reads s`priority
  {
    forall p, c {:trigger Below(c, p)} :: Below(c, p) && c < |s| && c != child && p != parent && s[c] != null && s[p] != null ==>
      s[p].priority <= s[c].priority
  }

  /** The node above slot `k` is not behind any node below slot `k`. */
  ghost predicate AboveIn(s: seq<Node?>, k: int)
    reads s`priority
  {
    forall c {:trigger Below(c, k)} :: Below(c, k) && 2 <= k && c < |s| && s[c] != null && s[k / 2] != null ==>
      s[k / 2].priority <= s[c].priority
  }

  /**
   * One step of `cascadeUp`: when the node in slot k is not behind its
   * parent, exchanging the two moves the only disorder one level up.
   */
  lemma UpStep(s: seq<Node?>, k: int)
    requires 2 <= k < |s| && s[k] != null && s[k / 2] != null
    requires OrderedIn(s, k, 0) && AboveIn(s, k) && s[k].priority <= s[k / 2].priority
    ensures OrderedIn(Swapped(s, k, k / 2), k / 2, 0) && AboveIn(Swapped(s, k, k / 2), k / 2)
  {
    // the grandparent of k is not behind the parent, which moves down to k
    if k >= 4 {
      assert Below(k / 2, k / 2 / 2);
    }
  }

  /** A node put in the first empty slot k of a heap leaves only the edge above it in question. */
  lemma AppendOrdered(s: seq<Node?>, k: int, x: Node?)
    requires 1 <= k < |s| && OrderedIn(s, 0, 0)
    requires forall c :: k <= c < |s| ==> s[c] == null
    ensures OrderedIn(s[k := x], k, 0) && AboveIn(s[k := x], k)
  {
  }

  /**
   * One round of `cascadeDown`: when the child in slot c is the first of
   * the children of slot k and strictly ahead of the node in k, exchanging
   * the two moves the only disorder one level down.
   */
  lemma DownStep(s: seq<Node?>, k: int, c: int)
    requires 1 <= k && c / 2 == k && c < |s| && s[c] != null && s[k] != null
    requires OrderedIn(s, k, k) && AboveIn(s, k)
    requires k >= 2 ==> s[k / 2] != null && s[k / 2].priority <= s[k].priority
    requires s[c].priority < s[k].priority
    requires forall d :: 2 * k <= d <= 2 * k + 1 && d < |s| && s[d] != null ==> s[c].priority <= s[d].priority
    ensures OrderedIn(Swapped(s, k, c), c, c) && AboveIn(Swapped(s, k, c), c)
  {
    // the parent of k is not behind the child that moves up into k
    assert Below(c, k);
  }

  /** The end of `cascadeDown`: a node not behind its parent nor ahead of its children completes the heap. */
  lemma DownFinal(s: seq<Node?>, k: int)
    requires 1 <= k < |s| && s[k] != null && OrderedIn(s, k, k)
    requires k >= 2 ==> s[k / 2] != null && s[k / 2].priority <= s[k].priority
    requires forall d :: 2 * k <= d <= 2 * k + 1 && d < |s| && s[d] != null ==> s[k].priority <= s[d].priority
    ensures OrderedIn(s, 0, 0)
  {
  }

  /** A node strictly ahead of its parent in slot k, with the rest in order, only breaks the edge above it. */
  lemma UpStart(s: seq<Node?>, k: int)
    requires 2 <= k < |s| && s[k] != null && s[k / 2] != null && s[k].priority < s[k / 2].priority
    requires OrderedIn(s, k, k) && AboveIn(s, k)
    ensures OrderedIn(s, k, 0)
  {
  }

  /** Emptying a slot removes edges and breaks none. */
  lemma ClearKeepsOrder(s: seq<Node?>, k: int, child: int, parent: int)
    requires 0 <= k < |s| && OrderedIn(s, child, parent)
    ensures OrderedIn(s[k := null], child, parent)
  {
  }

  /**
   * `remove` of the node in slot k of a heap whose last node is in slot n:
   * the last node takes slot k and slot n empties; only the edges at slot k
   * are in question, and the node above k is still ahead of those below it.
   */
  lemma RemoveOrder(s: seq<Node?>, k: int, n: int)
    requires 1 <= k < n < |s| && s[k] != null && OrderedIn(s, 0, 0)
    ensures OrderedIn(s[k := s[n]][n := null], k, k) && AboveIn(s[k := s[n]][n := null], k)
  {
    // the parent of k is not behind the removed node, nor that node behind its children
    if k >= 2 {
      assert Below(k, k / 2);
    }
  }

  /** In a heap whose slots 1..i are all full, slot 1 is not behind slot i. */
  lemma {:induction false} RootBelow(s: seq<Node?>, i: int)
    requires 1 <= i < |s| && OrderedIn(s, 0, 0)
    requires forall j :: 1 <= j <= i ==> s[j] != null
    ensures s[1] != null && s[1].priority <= s[i].priority
    decreases i
  {
    if i > 1 {
      RootBelow(s, i / 2);
      assert Below(i, i / 2);
    }
  }

  /** Emptying slot n drops its node from the slots 1..n. */
  lemma SlotsDrop(s: seq<Node?>, n: int)
    requires 1 <= n < |s|
    ensures Slots(s[n := null], n - 1) == Slots(s, n) - multiset{s[n]}
  {
    assert s[n := null][1..n] == s[1..n];
    assert s[1..n + 1] == s[1..n] + [s[n]];
  }

  /** Moving the last of the slots 1..n into slot k brings in no new node. */
  lemma MovedWithin(s: seq<Node?>, k: int, n: int)
    requires 1 <= k < n < |s| && s[0] == null
    ensures var t := s[k := s[n]][n := null]; forall j :: 0 <= j < |t| ==> t[j] in s
  {
    var t := s[k := s[n]][n := null];
    forall j | 0 <= j < |t|
      ensures t[j] in s
    {
      if j == n {
        assert t[j] == s[0];
      } else if j == k {
        assert t[j] == s[n];
      } else {
        assert t[j] == s[j];
      }
    }
  }

  /** The parents in the slots 1..i - 1 of `s` are not behind their children. */
  ghost predicate CheckedBelow(s: seq<Node?>, i: int)
    reads s`priority
  {
    forall p, c {:trigger Below(c, p)} :: Below(c, p) && p < i && c < |s| && s[c] != null && s[p] != null ==>
      s[p].priority <= s[c].priority
  }

  /** Copying the slots 1..n of a heap into another empty array keeps the nodes and the heap. */
  lemma ResizeKeeps(s: seq<Node?>, t: seq<Node?>, n: int)
    requires 0 <= n < |s| && n < |t| && s[..n + 1] == t[..n + 1]
    requires forall i :: n < i < |s| ==> s[i] == null
    requires forall i :: n < i < |t| ==> t[i] == null
    ensures Slots(t, n) == Slots(s, n)
    ensures OrderedIn(s, 0, 0) ==> OrderedIn(t, 0, 0)
  {
    assert forall i :: 0 <= i <= n ==> s[i] == s[..n + 1][i] == t[..n + 1][i] == t[i];
    assert t[1..n + 1] == t[..n + 1][1..] == s[..n + 1][1..] == s[1..n + 1];
  }

  class FastPriorityQueue {
    var numNodes: int
    var nodes: array<Node?>

    /**
     * Slots 1..numNodes hold nodes that know their slot, except perhaps slot
     * `hole`; every other slot is empty.
     */
    ghost predicate ValidExcept(hole: int)
      reads this, nodes, nodes[..]`queueIndex
    {
      && 0 <= numNodes < nodes.Length
      && nodes[0] == null
      && (forall i :: 1 <= i <= numNodes && i != hole ==> nodes[i] != null && nodes[i].queueIndex == i)
      && (forall i :: numNodes < i < nodes.Length ==> nodes[i] == null)
    }

    ghost predicate Valid()
      reads this, nodes, nodes[..]`queueIndex
    {
      ValidExcept(0)
    }

    /** The heap property: no child is strictly ahead of its parent. */
    ghost predicate Heap()
      reads this, nodes, nodes[..]`priority
    {
      OrderedIn(nodes[..], 0, 0)
    }

    /** The nodes in the queue. */
    ghost function Elements(): multiset<Node?>
      reads this, nodes
    {
      Slots(nodes[..], numNodes)
    }

    /** `new FastPriorityQueue(maxNodes)` once the size check has passed. */
    constructor Init(maxNodes: int)
      requires 0 < maxNodes
      ensures Valid() && Heap() && numNodes == 0 && nodes.Length == maxNodes + 1
      ensures Elements() == multiset{} && fresh(nodes)
    {
      numNodes := 0;
      nodes := new Node?[maxNodes + 1](_ => null);
    }

    /** `getCount()`: the number of queued nodes. */
    function GetCount(): (r: int)
      reads this, nodes, nodes[..]`queueIndex
      requires Valid()
      ensures r == |Elements()|
    {
      numNodes
    }

    /** `getMaxSize()`: one less than the array, as slot 0 is unused. */
    function GetMaxSize(): (r: int)
      reads this, nodes
      ensures r + 1 == nodes.Length
    {
      nodes.Length - 1
    }

    /**
     * `contains(node)`: is the node in the slot it names? A slot outside the
     * array is reported as a corrupted index.
     */
    function Contains(node: Node): (r: Result<bool>)
      reads this, nodes, node
      ensures r.Err? <==> node.queueIndex < 0 || node.queueIndex >= nodes.Length
      ensures r.Ok? ==> (r.value <==> nodes[node.queueIndex] == node)
    {
      if node.queueIndex < 0 || node.queueIndex >= nodes.Length then Err(InvalidParameter)
      else Ok(nodes[node.queueIndex] == node)
    }

    /** In a valid queue `contains` answers true exactly for the queued nodes. */
    lemma ContainsIsMembership(node: Node)
      requires Valid()
      ensures Contains(node) == Ok(true) <==> node in Elements()
    {
      var t := nodes[..][1..numNodes + 1];
      if node in Elements() {
        assert node in t;
        var j :| 0 <= j < |t| && t[j] == node;
        assert nodes[j + 1] == node;
      }
      if Contains(node) == Ok(true) {
        var i := node.queueIndex;
        assert 1 <= i <= numNodes;
        assert t[i - 1] == node;
      }
    }

    /** Every node in a slot is one of the queued nodes. */
    lemma SlotsAreElements()
      requires Valid()
      ensures forall i :: 0 <= i < nodes.Length && nodes[i] != null ==> nodes[i] in Elements()
    {
      forall i | 0 <= i < nodes.Length && nodes[i] != null
        ensures nodes[i] in Elements()
      {
        assert nodes[..][1..numNodes + 1][i - 1] == nodes[i];
      }
    }

    /** `getFirst()`: slot 1, or an error for an empty queue. */
    function GetFirst(): (r: Result<Node>)
      reads this, nodes, nodes[..]`queueIndex
      requires Valid()
      ensures r.Err? <==> numNodes <= 0
      ensures r.Ok? ==> r.value == nodes[1] && r.value in Elements()
    {
      if numNodes <= 0 then Err(InvalidParameter)
      else
        assert nodes[..][1..numNodes + 1][0] == nodes[1];
        var first: Node := nodes[1];
        Ok(first)
    }

    /** Every slot holds `null` or a node of `s`: the nodes a method may touch. */
    ghost predicate SlotsWithin(s: seq<Node?>)
      reads this, nodes
    {
      forall i :: 0 <= i < nodes.Length ==> nodes[i] in s
    }

    /** `swap(node1, node2)`: the two nodes exchange slots and slot indices. */
    method Swap(node1: Node, node2: Node)
      requires Valid()
      requires 1 <= node1.queueIndex <= numNodes && nodes[node1.queueIndex] == node1
      requires 1 <= node2.queueIndex <= numNodes && nodes[node2.queueIndex] == node2
      modifies nodes, node1`queueIndex, node2`queueIndex
      ensures Valid() && Elements() == old(Elements()) && SlotsWithin(old(nodes[..]))
      ensures nodes[..] == Swapped(old(nodes[..]), old(node1.queueIndex), old(node2.queueIndex))
      ensures node1.queueIndex == old(node2.queueIndex) && node2.queueIndex == old(node1.queueIndex)
    {
      nodes[node1.queueIndex] := node2;
      nodes[node2.queueIndex] := node1;
      var temp := node1.queueIndex;
      node1.queueIndex := node2.queueIndex;
      node2.queueIndex := temp;
      SlotsSwap(old(nodes[..]), numNodes, node2.queueIndex, node1.queueIndex);
    }

    /** While cascading up: the queue is valid and only the edge above `node` may be out of order. */
    ghost predicate Rising(node: Node)
      reads this, nodes, nodes[..]`queueIndex, nodes[..]`priority, node
    {
      && Valid() && 1 <= node.queueIndex <= numNodes && nodes[node.queueIndex] == node
      && OrderedIn(nodes[..], node.queueIndex, 0) && AboveIn(nodes[..], node.queueIndex)
    }

    /** One round of `cascadeUp`: the node swaps with a parent that is not strictly ahead of it. */
    method RiseOnce(node: Node, parentNode: Node)
      requires Rising(node) && node.queueIndex >= 2 && nodes[node.queueIndex / 2] == parentNode
      requires node.priority <= parentNode.priority
      modifies nodes, node`queueIndex, parentNode`queueIndex
      ensures Rising(node) && node.queueIndex == old(node.queueIndex) / 2
      ensures Elements() == old(Elements()) && SlotsWithin(old(nodes[..]))
    {
      ghost var k, before := node.queueIndex, nodes[..];
      UpStep(before, k);
      ghost var after := Swapped(before, k, k / 2);
      assert OrderedIn(after, k / 2, 0) && AboveIn(after, k / 2);
      Swap(node, parentNode);
      assert OrderedIn(after, k / 2, 0) && AboveIn(after, k / 2);
      assert nodes[..] == after;
    }

    /**
     * `cascadeUp(node)`: the node climbs past every parent that is not
     * strictly ahead of it, which restores the heap when only the edge above
     * the node was out of order.
     */
    method CascadeUp(node: Node)
      requires Rising(node)
      modifies nodes, nodes[..]`queueIndex
      ensures Valid() && Heap() && Elements() == old(Elements())
    {
      ghost var original := nodes[..];
      var parent := node.queueIndex / 2;
      while parent >= 1
        invariant Rising(node) && parent == node.queueIndex / 2
        invariant Elements() == old(Elements()) && SlotsWithin(original)
        decreases node.queueIndex
      {
        var parentNode := nodes[parent];
        if parentNode.priority < node.priority {
          break;
        }
        assert node in nodes[..] && parentNode in nodes[..];
        RiseOnce(node, parentNode);
        parent := node.queueIndex / 2;
      }
    }

    /** The node takes the slot after the last one. */
    method Place(node: Node)
      requires Valid() && numNodes < nodes.Length - 1 && node !in nodes[..]
      requires OrderedIn(nodes[..][numNodes + 1 := node], numNodes + 1, 0)
      requires AboveIn(nodes[..][numNodes + 1 := node], numNodes + 1)
      modifies this, nodes, node`queueIndex
      ensures nodes == old(nodes) && numNodes == old(numNodes) + 1 && nodes[..] == old(nodes[..])[numNodes := node]
      ensures Rising(node) && Elements() == old(Elements()) + multiset{node}
    {
      ghost var after := nodes[..][numNodes + 1 := node];
      numNodes := numNodes + 1;
      SlotsGrow(nodes[..], numNodes - 1, node);
      nodes[numNodes] := node;
      node.queueIndex := numNodes;
      assert nodes[..] == after;
      assert OrderedIn(after, numNodes, 0) && AboveIn(after, numNodes);
    }

    /** `node.setPriority(priority)` for a node outside the queue: the heap is not affected. */
    method SetOutsidePriority(node: Node, priority: real)
      requires Heap() && node !in nodes[..]
      modifies node`priority
      ensures Heap() && node.priority == priority
    {
      node.priority := priority;
    }

    /** The first half of `enqueue`: the node gets its priority and the slot after the last one. */
    method Append(node: Node, priority: real)
      requires Valid() && Heap() && numNodes < nodes.Length - 1 && node !in nodes[..]
      modifies this, nodes, node`priority, node`queueIndex
      ensures nodes == old(nodes) && Rising(node) && node.priority == priority
      ensures Elements() == old(Elements()) + multiset{node}
      ensures nodes[..] == old(nodes[..])[numNodes := node]
    {
      ghost var before := nodes[..];
      SetOutsidePriority(node, priority);
      AppendOrdered(before, numNodes + 1, node);
      Place(node);
    }

    /**
     * `enqueue(node, priority)`: fails when the queue is full, when the
     * node's slot index is out of range, or when the node is already queued;
     * otherwise the node joins the heap with the given priority.
     */
    method Enqueue(node: Node, priority: real) returns (r: Outcome)
      requires Valid() && Heap()
      modifies this, nodes, nodes[..]`queueIndex, node`priority, node`queueIndex
      ensures nodes == old(nodes) && Valid() && Heap()
      ensures r.Fail? <==> old(numNodes >= nodes.Length - 1 || Contains(node) != Ok(false))
      ensures r.Pass? ==> Elements() == old(Elements()) + multiset{node} && node.priority == priority
      ensures r.Fail? ==> Elements() == old(Elements()) && unchanged(node)
    {
      if numNodes >= nodes.Length - 1 {
        return Fail(InvalidParameter);
      }
      var contained := Contains(node);
      if contained.Err? {
        return Fail(contained.error);
      }
      if contained.value {
        return Fail(InvalidParameter);
      }
      assert node !in nodes[..];
      Append(node, priority);
      ghost var added := Elements();
      CascadeUp(node);
      assert Elements() == added;
      return Pass;
    }

    /** While cascading down: the queue is valid and only the edges below `node` may be out of order. */
    ghost predicate Falling(node: Node)
      reads this, nodes, nodes[..]`queueIndex, nodes[..]`priority, node
    {
      && Valid() && 1 <= node.queueIndex <= numNodes && nodes[node.queueIndex] == node
      && OrderedIn(nodes[..], node.queueIndex, node.queueIndex) && AboveIn(nodes[..], node.queueIndex)
      && (node.queueIndex >= 2 ==> nodes[node.queueIndex / 2] != null && nodes[node.queueIndex / 2].priority <= node.priority)
    }

    /** One round of `cascadeDown`: the node swaps with the first of its children, which is strictly ahead of it. */
    method SinkOnce(node: Node, newParent: Node)
      requires Falling(node) && 1 <= newParent.queueIndex <= numNodes && nodes[newParent.queueIndex] == newParent
      requires newParent.queueIndex / 2 == node.queueIndex && newParent.priority < node.priority
      requires forall d :: 2 * node.queueIndex <= d <= 2 * node.queueIndex + 1 && d <= numNodes ==>
        newParent.priority <= nodes[d].priority
      modifies nodes, node`queueIndex, newParent`queueIndex
      ensures Falling(node) && node.queueIndex == old(newParent.queueIndex)
      ensures Elements() == old(Elements()) && SlotsWithin(old(nodes[..]))
    {
      ghost var k, c, before := node.queueIndex, newParent.queueIndex, nodes[..];
      DownStep(before, k, c);
      ghost var after := Swapped(before, k, c);
      assert OrderedIn(after, c, c) && AboveIn(after, c);
      Swap(node, newParent);
      assert OrderedIn(after, c, c) && AboveIn(after, c);
      assert nodes[..] == after;
    }

    /**
     * The comparisons of one `cascadeDown` round: the left child replaces the
     * node as the candidate when strictly ahead of it, and the right child,
     * if there is one, replaces the candidate when strictly ahead of it.
     */
    function FirstOfFamily(node: Node, childLeftIndex: int): (newParent: Node)
      reads this, nodes, nodes[..]`queueIndex, nodes[..]`priority, node
      requires Valid() && 1 <= node.queueIndex <= numNodes && nodes[node.queueIndex] == node
      requires childLeftIndex == 2 * node.queueIndex <= numNodes
      ensures newParent == node ==> forall d :: childLeftIndex <= d <= childLeftIndex + 1 && d < nodes.Length && nodes[d] != null ==>
        node.priority <= nodes[d].priority
      ensures newParent != node ==> 1 <= newParent.queueIndex <= numNodes && nodes[newParent.queueIndex] == newParent
      ensures newParent != node ==> newParent.queueIndex / 2 == node.queueIndex && newParent.priority < node.priority
      ensures newParent != node ==> forall d :: childLeftIndex <= d <= childLeftIndex + 1 && d <= numNodes ==>
        newParent.priority <= nodes[d].priority
    {
      var childLeft: Node := nodes[childLeftIndex];
      var afterLeft := if childLeft.priority < node.priority then childLeft else node;
      var childRightIndex := childLeftIndex + 1;
      if childRightIndex <= numNodes then
        var childRight: Node := nodes[childRightIndex];
        if childRight.priority < afterLeft.priority then childRight else afterLeft
      else
        afterLeft
    }

    /**
     * `cascadeDown(node)`: the node sinks below every child strictly ahead
     * of it, taking the first of the two when both are, which restores the
     * heap when only the edges below the node were out of order. Each round
     * here exchanges the node with that child; the source moves only the
     * child and writes the node once, into the slot where it stops, which
     * leaves the same slots and slot indices.
     */
    method CascadeDown(node: Node)
      requires Falling(node)
      modifies nodes, nodes[..]`queueIndex
      ensures Valid() && Heap() && Elements() == old(Elements())
    {
      ghost var original := nodes[..];
      var newParent: Node;
      var finalQueueIndex := node.queueIndex;
      while true
        invariant Falling(node) && finalQueueIndex == node.queueIndex
        invariant Elements() == old(Elements()) && SlotsWithin(original)
        decreases numNodes - finalQueueIndex
      {
        newParent := node;
        var childLeftIndex := 2 * finalQueueIndex;
        if childLeftIndex > numNodes {
          DownFinal(nodes[..], finalQueueIndex);
          break;
        }
        newParent := FirstOfFamily(node, childLeftIndex);
        if newParent != node {
          assert node in nodes[..] && newParent in nodes[..];
          SinkOnce(node, newParent);
          finalQueueIndex := node.queueIndex;
        } else {
          DownFinal(nodes[..], finalQueueIndex);
          break;
        }
      }
    }

    /**
     * `onNodeUpdated(node)`: after the node in its slot changed, it climbs if
     * it is now strictly ahead of its parent and sinks otherwise.
     */
    method OnNodeUpdated(node: Node)
      requires Valid() && 1 <= node.queueIndex <= numNodes && nodes[node.queueIndex] == node
      requires OrderedIn(nodes[..], node.queueIndex, node.queueIndex) && AboveIn(nodes[..], node.queueIndex)
      modifies nodes, nodes[..]`queueIndex
      ensures Valid() && Heap() && Elements() == old(Elements())
    {
      var parentIndex := node.queueIndex / 2;
      var parentNode := nodes[parentIndex];
      if parentIndex > 0 && node.priority < parentNode.priority {
        UpStart(nodes[..], node.queueIndex);
        CascadeUp(node);
      } else {
        CascadeDown(node);
      }
    }

    /** The last slot empties; its node leaves the queue. */
    method DropLast()
      requires Valid() && numNodes >= 1
      modifies this`numNodes, nodes
      ensures nodes == old(nodes) && numNodes == old(numNodes) - 1
      ensures nodes[..] == old(nodes[..])[old(numNodes) := null]
      ensures Valid() && Elements() == old(Elements()) - multiset{old(nodes[numNodes])}
    {
      SlotsDrop(nodes[..], numNodes);
      nodes[numNodes] := null;
      numNodes := numNodes - 1;
    }

    /**
     * The middle of `remove`: the node swaps with the last node, and the last
     * slot, which now holds the node, empties.
     */
    method MoveLast(node: Node, formerLastNode: Node)
      requires Valid() && 1 <= node.queueIndex < numNodes && nodes[node.queueIndex] == node
      requires formerLastNode == nodes[numNodes]
      modifies this`numNodes, nodes, node`queueIndex, formerLastNode`queueIndex
      ensures nodes == old(nodes) && numNodes == old(numNodes) - 1
      ensures nodes[..] == old(nodes[..])[old(node.queueIndex) := formerLastNode][old(numNodes) := null]
      ensures formerLastNode.queueIndex == old(node.queueIndex) && node.queueIndex == old(numNodes)
      ensures nodes[formerLastNode.queueIndex] == formerLastNode
      ensures Valid() && Elements() == old(Elements()) - multiset{node}
    {
      ghost var before, k, n := nodes[..], node.queueIndex, numNodes;
      Swap(node, formerLastNode);
      SwappedCleared(before, k, n, null);
      ghost var mid := Elements();
      assert nodes[n] == node;
      DropLast();
      assert Elements() == mid - multiset{node};
      assert nodes[k] == formerLastNode;
    }

    /** The last node takes the slot of `node`; only the edges at that slot are left in question. */
    method TakeLastInto(node: Node) returns (formerLastNode: Node)
      requires Valid() && Heap() && 1 <= node.queueIndex < numNodes && nodes[node.queueIndex] == node
      modifies this`numNodes, nodes, nodes[..]`queueIndex
      ensures nodes == old(nodes) && Valid() && Elements() == old(Elements()) - multiset{node}
      ensures 1 <= formerLastNode.queueIndex <= numNodes && nodes[formerLastNode.queueIndex] == formerLastNode
      ensures OrderedIn(nodes[..], formerLastNode.queueIndex, formerLastNode.queueIndex)
      ensures AboveIn(nodes[..], formerLastNode.queueIndex)
      ensures SlotsWithin(old(nodes[..])) && node.queueIndex == old(numNodes) == numNodes + 1
    {
      ghost var k, n, before := node.queueIndex, numNodes, nodes[..];
      RemoveOrder(before, k, n);
      MovedWithin(before, k, n);
      ghost var after := before[k := before[n]][n := null];
      assert OrderedIn(after, k, k) && AboveIn(after, k);
      formerLastNode := nodes[numNodes];
      MoveLast(node, formerLastNode);
      assert OrderedIn(after, k, k) && AboveIn(after, k) by {
        assert forall i :: 0 <= i < |after| && after[i] != null ==> after[i].priority == old(after[i].priority);
      }
    }

    /** A node whose slot index lies past the last queued slot is in no slot. */
    lemma NotQueuedBeyond(x: Node)
      requires Valid() && x.queueIndex > numNodes
      ensures x !in nodes[..]
    {
      forall j | 0 <= j < nodes.Length
        ensures nodes[..][j] != x
      {
      }
    }

    /**
     * The work of `remove` once the node is known to be queued: the last
     * slot simply empties when it holds the node; otherwise the last node
     * takes the node's slot and settles up or down. Either way the node is
     * left pointing at the slot past the new last one.
     */
    method RemoveQueued(node: Node)
      requires Valid() && Heap() && 1 <= node.queueIndex <= numNodes && nodes[node.queueIndex] == node
      modifies this, nodes, nodes[..]`queueIndex
      ensures nodes == old(nodes) && Valid() && Heap() && Elements() == old(Elements()) - multiset{node}
      ensures node.queueIndex == old(numNodes) == numNodes + 1
    {
      if node.queueIndex == numNodes {
        ClearKeepsOrder(nodes[..], numNodes, 0, 0);
        DropLast();
      } else {
        RemoveInner(node);
      }
    }

    /** `remove` of a queued node that is not in the last slot. */
    method RemoveInner(node: Node)
      requires Valid() && Heap() && 1 <= node.queueIndex < numNodes && nodes[node.queueIndex] == node
      modifies this, nodes, nodes[..]`queueIndex
      ensures nodes == old(nodes) && Valid() && Heap() && Elements() == old(Elements()) - multiset{node}
      ensures node.queueIndex == old(numNodes) == numNodes + 1
    {
      var formerLastNode := TakeLastInto(node);
      NotQueuedBeyond(node);
      ghost var k := formerLastNode.queueIndex;
      assert OrderedIn(nodes[..], k, k) && AboveIn(nodes[..], k);
      OnNodeUpdated(formerLastNode);
    }

    /**
     * `remove(node)`: fails when the node's slot index is out of range or
     * the node is not queued; otherwise the last node takes its slot and
     * settles up or down.
     */
    method Remove(node: Node) returns (r: Outcome)
      requires Valid() && Heap()
      modifies this, nodes, nodes[..]`queueIndex
      ensures nodes == old(nodes) && Valid() && Heap()
      ensures r.Fail? <==> old(Contains(node)) != Ok(true)
      ensures r.Pass? ==> Elements() == old(Elements()) - multiset{node} && Contains(node) == Ok(false)
      ensures r.Fail? ==> Elements() == old(Elements())
    {
      var contained := Contains(node);
      if contained.Err? {
        return Fail(contained.error);
      }
      if !contained.value {
        return Fail(InvalidParameter);
      }
      RemoveQueued(node);
      assert nodes[node.queueIndex] == null;
      return Pass;
    }

    /** `clear()`: every queued slot empties. */
    method Clear()
      requires Valid()
      modifies this, nodes
      ensures nodes == old(nodes) && Valid() && Heap() && numNodes == 0 && Elements() == multiset{}
    {
      var i := 1;
      while i < 1 + numNodes
        invariant nodes == old(nodes) && numNodes == old(numNodes) && 1 <= i <= numNodes + 1
        invariant nodes[0] == null && forall j :: 1 <= j < i || numNodes < j < nodes.Length ==> nodes[j] == null
      {
        nodes[i] := null;
        i := i + 1;
      }
      numNodes := 0;
      assert nodes[..][1..1] == [];
    }

    /**
     * `resize(maxNodes)`: sizes below 1 or below the count are rejected, as
     * is `Integer.MAX_VALUE`, whose `maxNodes + 1` overflows into a negative
     * array size; otherwise the queued slots move to a fresh array of the new
     * size.
     */
    method Resize(maxNodes: int) returns (r: Outcome)
      requires Valid() && JavaMath.INT_MIN <= maxNodes <= JavaMath.INT_MAX
      modifies this
      ensures Valid() && numNodes == old(numNodes) && Elements() == old(Elements())
      ensures old(Heap()) ==> Heap()
      ensures r.Fail? <==> maxNodes <= 0 || maxNodes < old(numNodes) || maxNodes == JavaMath.INT_MAX
      ensures r.Fail? ==> nodes == old(nodes)
      ensures r.Pass? ==> fresh(nodes) && GetMaxSize() == maxNodes
      ensures r.Pass? ==> nodes[..numNodes + 1] == old(nodes[..numNodes + 1])
    {
      if maxNodes <= 0 {
        return Fail(InvalidParameter);
      }
      if maxNodes < numNodes {
        return Fail(InvalidParameter);
      }
      if maxNodes == JavaMath.INT_MAX {
        return Fail(Runtime("NegativeArraySizeException"));
      }
      Reallocate(maxNodes);
      return Pass;
    }

    /** The work of `resize` once the size is accepted: the slots move to a fresh array of the new size. */
    method Reallocate(maxNodes: int)
      requires Valid() && numNodes <= maxNodes < JavaMath.INT_MAX && 1 <= maxNodes
      modifies this
      ensures Valid() && numNodes == old(numNodes) && Elements() == old(Elements())
      ensures old(Heap()) ==> Heap()
      ensures fresh(nodes) && GetMaxSize() == maxNodes
      ensures nodes[..numNodes + 1] == old(nodes[..])[..numNodes + 1]
    {
      ghost var before := nodes[..];
      var newArray := CopySlots(maxNodes);
      nodes := newArray;
      ResizeKeeps(before, nodes[..], numNodes);
    }

    /** The copy loop of `resize`: slots 1..min(maxNodes, count) move into a fresh empty array. */
    method CopySlots(maxNodes: int) returns (newArray: array<Node?>)
      requires Valid() && numNodes <= maxNodes < JavaMath.INT_MAX
      ensures fresh(newArray) && newArray.Length == maxNodes + 1
      ensures newArray[..numNodes + 1] == nodes[..numNodes + 1]
      ensures forall j :: numNodes < j < newArray.Length ==> newArray[j] == null
    {
      newArray := new Node?[maxNodes + 1](_ => null);
      var highestIndexToCopy := if maxNodes < numNodes then maxNodes else numNodes;
      var i := 1;
      while i <= highestIndexToCopy
        invariant 1 <= i <= highestIndexToCopy + 1
        invariant forall j :: 0 <= j < i ==> newArray[j] == nodes[j]
        invariant forall j :: i <= j < newArray.Length ==> newArray[j] == null
      {
        newArray[i] := nodes[i];
        i := i + 1;
      }
      assert newArray[..numNodes + 1] == nodes[..numNodes + 1];
    }

    /**
     * `IsValidQueue()`: scans every slot of the array and reports whether no
     * child is strictly ahead of its parent, that is, whether the heap
     * property holds.
     */
    method IsValidQueue() returns (r: bool)
      requires Valid()
      ensures r <==> Heap()
    {
      var i := 1;
      while i < nodes.Length
        invariant 1 <= i <= nodes.Length
        invariant CheckedBelow(nodes[..], i)
      {
        if nodes[i] != null {
          var childLeftIndex := 2 * i;
          if childLeftIndex < nodes.Length && nodes[childLeftIndex] != null && nodes[childLeftIndex].priority < nodes[i].priority {
            assert Below(childLeftIndex, i);
            return false;
          }
          var childRightIndex := childLeftIndex + 1;
          if childRightIndex < nodes.Length && nodes[childRightIndex] != null && nodes[childRightIndex].priority < nodes[i].priority {
            assert Below(childRightIndex, i);
            return false;
          }
        }
        i := i + 1;
      }
      return true;
    }

    /** A queued node gets a new priority; only the edges at its slot are left in question. */
    method SetQueuedPriority(node: Node, priority: real)
      requires Valid() && Heap() && 1 <= node.queueIndex <= numNodes && nodes[node.queueIndex] == node
      modifies node`priority
      ensures node.priority == priority
      ensures OrderedIn(nodes[..], node.queueIndex, node.queueIndex) && AboveIn(nodes[..], node.queueIndex)
    {
      ghost var k := node.queueIndex;
      if k >= 2 {
        assert Below(k, k / 2);
      }
      node.priority := priority;
    }

    /**
     * `updatePriority(node, priority)`: fails when the node's slot index is
     * out of range or the node is not queued; otherwise the node takes the
     * new priority and climbs or sinks to restore the heap.
     */
    method UpdatePriority(node: Node, priority: real) returns (r: Outcome)
      requires Valid() && Heap()
      modifies nodes, nodes[..]`queueIndex, node`priority
      ensures Valid() && Heap() && Elements() == old(Elements())
      ensures r.Fail? <==> old(Contains(node)) != Ok(true)
      ensures r.Pass? ==> node.priority == priority
      ensures r.Fail? ==> node.priority == old(node.priority)
    {
      var contained := Contains(node);
      if contained.Err? {
        return Fail(contained.error);
      }
      if !contained.value {
        return Fail(InvalidParameter);
      }
      SetQueuedPriority(node, priority);
      OnNodeUpdated(node);
      return Pass;
    }

    /** No queued node is strictly ahead of the node in slot 1. */
    ghost predicate LeastFirst()
      reads this, nodes, nodes[..]`queueIndex, nodes[..]`priority
      requires Valid()
    {
      && numNodes >= 1 && nodes[1] != null
      && forall i :: 1 <= i <= numNodes && nodes[i] != null ==> nodes[1].priority <= nodes[i].priority
    }

    /** In a heap, slot 1 holds a node that no queued node is strictly ahead of. */
    lemma MinAtRoot()
      requires Valid() && Heap() && numNodes >= 1
      ensures nodes[1] != null && forall x: Node :: x in Elements() ==> nodes[1].priority <= x.priority
      ensures LeastFirst()
    {
      RootBelow(nodes[..], 1);
      forall x: Node | x in Elements()
        ensures nodes[1].priority <= x.priority
      {
        var t := nodes[..][1..numNodes + 1];
        assert x in t;
        var j :| 0 <= j < |t| && t[j] == x;
        RootBelow(nodes[..], j + 1);
      }
      forall i | 1 <= i <= numNodes && nodes[i] != null
        ensures nodes[1].priority <= nodes[i].priority
      {
        RootBelow(nodes[..], i);
      }
    }

    /**
     * `dequeue()`: fails on an empty queue and on a queue whose heap
     * property is broken; otherwise removes and returns the node `getFirst`
     * would have returned, which no queued node was strictly ahead of.
     */
    method Dequeue() returns (r: Result<Node>)
      requires Valid()
      modifies this, nodes, nodes[..]`queueIndex
      ensures nodes == old(nodes) && Valid()
      ensures r.Err? <==> old(numNodes) <= 0 || !old(Heap())
      ensures r.Err? ==> Elements() == old(Elements())
      ensures r.Ok? ==> old(GetFirst()) == Ok(r.value) && old(LeastFirst())
      ensures r.Ok? ==> Heap() && Elements() == old(Elements()) - multiset{r.value}
    {
      if numNodes <= 0 {
        return Err(InvalidParameter);
      }
      var valid := IsValidQueue();
      if !valid {
        return Err(InvalidParameter);
      }
      var returnMe := RemoveFirst();
      return Ok(returnMe);
    }

    /** The end of `dequeue`: the node in slot 1 is removed and returned. */
    method RemoveFirst() returns (returnMe: Node)
      requires Valid() && Heap() && numNodes >= 1
      modifies this, nodes, nodes[..]`queueIndex
      ensures nodes == old(nodes) && Valid() && Heap()
      ensures old(GetFirst()) == Ok(returnMe) && old(LeastFirst())
      ensures Elements() == old(Elements()) - multiset{returnMe}
    {
      MinAtRoot();
      returnMe := nodes[1];
      var removed := Remove(returnMe);
    }
  }

  /**
   * `new FastPriorityQueue(maxNodes)`: sizes below 1 are rejected, and
   * `Integer.MAX_VALUE` overflows `maxNodes + 1` into a negative array size.
   */
  method Create(maxNodes: int) returns (r: Result<FastPriorityQueue>)
    requires JavaMath.INT_MIN <= maxNodes <= JavaMath.INT_MAX
    ensures r.Err? <==> maxNodes <= 0 || maxNodes == JavaMath.INT_MAX
    ensures r.Ok? ==> fresh(r.value) && r.value.Valid() && r.value.Heap()
    ensures r.Ok? ==> r.value.GetMaxSize() == maxNodes && r.value.Elements() == multiset{}
  {
    if maxNodes <= 0 {
      return Err(InvalidParameter);
    }
    if maxNodes == JavaMath.INT_MAX {
      return Err(Runtime("NegativeArraySizeException"));
    }
    var q := new FastPriorityQueue.Init(maxNodes);
    return Ok(q);
  }
}
