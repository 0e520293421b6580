/**
 * The node structure shared by `QuadtreePoint` and `QuadtreeAABBStatic`.
 *
 * The Java trees keep their nodes in an `IntList` of (first child, size)
 * records and each leaf's element list as a linked list in a second
 * `IntList`; here a node is a value: a leaf holding its element indices in
 * list order (head first), or a branch with its four children in the order
 * TL TR BL BR. A leaf's size field is the length of its list.
 */
module QuadtreeNodes {
  import JavaMath

  /** A node's extents: centre (mx, my) and half-size (sx, sy). */
  datatype Box = Box(mx: int, my: int, sx: int, sy: int)

  /** A rectangle given by its edges. */
  datatype Rect = Rect(lft: int, top: int, rgt: int, btm: int)

  datatype QNode = Leaf(elements: seq<int>) | Branch(tl: QNode, tr: QNode, bl: QNode, br: QNode)

  /**
   * One entry of the traversal lists (`nd_idx_*`): a node, the path of child
   * numbers that leads to it from where the traversal started, its extents
   * and its depth.
   */
  datatype Frame = Frame(node: QNode, path: seq<int>, box: Box, depth: int)

  /** Child `i` of a branch, numbered TL 0, TR 1, BL 2, BR 3. */
  function Child(t: QNode, i: int): QNode
    requires t.Branch? && 0 <= i < 4
  {
    if i == 0 then t.tl else if i == 1 then t.tr else if i == 2 then t.bl else t.br
  }

  /** The node reached from `t` by following `path`, or `t`'s last leaf on the way when the path runs past one. */
  function At(t: QNode, path: seq<int>): QNode
  {
    if path == [] || t.Leaf? || !(0 <= path[0] < 4) then t else At(Child(t, path[0]), path[1..])
  }

  function Size(t: QNode): nat
  {
    match t
    case Leaf(_) => 1
    case Branch(c0, c1, c2, c3) => 1 + Size(c0) + Size(c1) + Size(c2) + Size(c3)
  }

  /**
   * The extents of child `i`: the half-size halved as Java's `/ 2` does
   * (truncating), the centre moved by that amount left or right and up or
   * down.
   */
  function ChildBox(b: Box, i: int): (r: Box)
    ensures r.sx == JavaMath.Div(b.sx, 2) && r.sy == JavaMath.Div(b.sy, 2)
    ensures r.mx == (if i % 2 == 0 then b.mx - r.sx else b.mx + r.sx)
    ensures r.my == (if i < 2 then b.my - r.sy else b.my + r.sy)
  {
    var hx := JavaMath.Div(b.sx, 2);
    var hy := JavaMath.Div(b.sy, 2);
    Box(if i % 2 == 0 then b.mx - hx else b.mx + hx, if i < 2 then b.my - hy else b.my + hy, hx, hy)
  }

  /**
   * Whether `find_leaves` descends into child `i` of a branch with extents
   * `b` for the rectangle `r`: the top row when `top <= my`, the bottom row
   * when `btm > my`, the left column when `lft <= mx`, the right column when
   * `rgt > mx`.
   */
  predicate Selects(b: Box, r: Rect, i: int)
  {
    (if i < 2 then r.top <= b.my else r.btm > b.my) && (if i % 2 == 0 then r.lft <= b.mx else r.rgt > b.mx)
  }

  /**
   * The quadrant `find_leaf` descends into for the point (x, y): top when
   * `y <= my`, left when `x <= mx`.
   */
  function Quadrant(b: Box, x: int, y: int): (i: int)
    ensures 0 <= i < 4
  {
    (if y <= b.my then 0 else 2) + (if x <= b.mx then 0 else 1)
  }

  /** The degenerate rectangle of a point selects exactly the point's quadrant. */
  lemma SelectsPoint(b: Box, x: int, y: int, i: int)
    requires 0 <= i < 4
    ensures Selects(b, Rect(x, y, x, y), i) <==> i == Quadrant(b, x, y)
  {
  }

  /** A rectangle containing the point selects the point's quadrant. */
  lemma SelectsQuadrant(b: Box, r: Rect, x: int, y: int)
    requires r.lft <= x <= r.rgt && r.top <= y <= r.btm
    ensures Selects(b, r, Quadrant(b, x, y))
  {
  }

  /** A rectangle with `lft <= rgt` and `top <= btm` selects at least one child. */
  lemma SelectsSome(b: Box, r: Rect)
    requires r.lft <= r.rgt && r.top <= r.btm
    ensures exists i :: 0 <= i < 4 && Selects(b, r, i)
  {
    assert Selects(b, r, Quadrant(b, r.lft, r.top));
  }

  // ---------------------------------------------------------------------------
  // find_leaf and find_leaves
  // ---------------------------------------------------------------------------

  /** The leaf `find_leaf` reaches from frame (t, path, b, depth) for the point (x, y). */
  function FindLeaf(t: QNode, path: seq<int>, b: Box, depth: int, x: int, y: int): (f: Frame)
    ensures f.node.Leaf?
  {
    match t
    case Leaf(_) => Frame(t, path, b, depth)
    case Branch(_, _, _, _) =>
      var i := Quadrant(b, x, y);
      FindLeaf(Child(t, i), path + [i], ChildBox(b, i), depth + 1, x, y)
  }

  /**
   * The leaves `find_leaves` lists for the rectangle `r`, in the order its
   * stack pops them: of a branch's selected children the last pushed (BR)
   * comes first.
   */
  function FindLeaves(t: QNode, path: seq<int>, b: Box, depth: int, r: Rect): seq<Frame>
  {
    match t
    case Leaf(_) => [Frame(t, path, b, depth)]
    case Branch(c0, c1, c2, c3) =>
      (if Selects(b, r, 3) then FindLeaves(c3, path + [3], ChildBox(b, 3), depth + 1, r) else [])
      + (if Selects(b, r, 2) then FindLeaves(c2, path + [2], ChildBox(b, 2), depth + 1, r) else [])
      + (if Selects(b, r, 1) then FindLeaves(c1, path + [1], ChildBox(b, 1), depth + 1, r) else [])
      + (if Selects(b, r, 0) then FindLeaves(c0, path + [0], ChildBox(b, 0), depth + 1, r) else [])
  }

  /** The leaves still to be listed for the frames on a stack, the top one first. */
  function Pending(stack: seq<Frame>, r: Rect): seq<Frame>
  {
    if stack == [] then [] else
      var top := stack[|stack| - 1];
      FindLeaves(top.node, top.path, top.box, top.depth, r) + Pending(stack[..|stack| - 1], r)
  }

  function StackSize(stack: seq<Frame>): nat
  {
    if stack == [] then 0 else StackSize(stack[..|stack| - 1]) + Size(stack[|stack| - 1].node)
  }

  lemma StackPush(stack: seq<Frame>, f: Frame, r: Rect)
    ensures Pending(stack + [f], r) == FindLeaves(f.node, f.path, f.box, f.depth, r) + Pending(stack, r)
    ensures StackSize(stack + [f]) == StackSize(stack) + Size(f.node)
  {
    assert (stack + [f])[..|stack|] == stack;
  }

  /** The child frame `find_leaves` and `find_leaf` push for child `i` (`pushNode(to_process, fc + i, ...)`). */
  function ChildFrame(f: Frame, i: int): Frame
    requires f.node.Branch? && 0 <= i < 4
  {
    Frame(Child(f.node, i), f.path + [i], ChildBox(f.box, i), f.depth + 1)
  }

  /** Child frame `i` when the rectangle selects it, else nothing. */
  function Opt(f: Frame, r: Rect, i: int): seq<Frame>
    requires f.node.Branch? && 0 <= i < 4
  {
    if Selects(f.box, r, i) then [ChildFrame(f, i)] else []
  }

  /** The child frames a popped branch pushes, in push order. */
  function Pushed(f: Frame, r: Rect): seq<Frame>
    requires f.node.Branch?
  {
    Opt(f, r, 0) + Opt(f, r, 1) + Opt(f, r, 2) + Opt(f, r, 3)
  }

  lemma {:induction false} PendingAppend(a: seq<Frame>, b: seq<Frame>, r: Rect)
    ensures Pending(a + b, r) == Pending(b, r) + Pending(a, r)
    ensures StackSize(a + b) == StackSize(a) + StackSize(b)
    decreases |b|
  {
    if b == [] {
      assert a + b == a;
    } else {
      var b' := b[..|b| - 1];
      var f := b[|b| - 1];
      assert a + b == (a + b') + [f];
      assert b == b' + [f];
      StackPush(a + b', f, r);
      StackPush(b', f, r);
      PendingAppend(a, b', r);
    }
  }

  lemma PendingOpt(f: Frame, r: Rect, i: int)
    requires f.node.Branch? && 0 <= i < 4
    ensures Pending(Opt(f, r, i), r) ==
      (if Selects(f.box, r, i) then FindLeaves(Child(f.node, i), f.path + [i], ChildBox(f.box, i), f.depth + 1, r) else [])
    ensures StackSize(Opt(f, r, i)) <= Size(Child(f.node, i))
  {
    if Selects(f.box, r, i) {
      StackPush([], ChildFrame(f, i), r);
      assert [] + [ChildFrame(f, i)] == Opt(f, r, i);
    }
  }

  /** The children a branch pushes hold, between them, exactly the branch's pending leaves. */
  lemma PendingOfPushed(f: Frame, r: Rect)
    requires f.node.Branch?
    ensures Pending(Pushed(f, r), r) == FindLeaves(f.node, f.path, f.box, f.depth, r)
    ensures StackSize(Pushed(f, r)) < Size(f.node)
  {
    var o0, o1, o2, o3 := Opt(f, r, 0), Opt(f, r, 1), Opt(f, r, 2), Opt(f, r, 3);
    PendingOpt(f, r, 0);
    PendingOpt(f, r, 1);
    PendingOpt(f, r, 2);
    PendingOpt(f, r, 3);
    var p0, p1, p2, p3 := Pending(o0, r), Pending(o1, r), Pending(o2, r), Pending(o3, r);
    PendingAppend(o0, o1, r);
    PendingAppend(o0 + o1, o2, r);
    PendingAppend(o0 + o1 + o2, o3, r);
    assert Pending(Pushed(f, r), r) == p3 + (p2 + (p1 + p0));
    assert FindLeaves(f.node, f.path, f.box, f.depth, r) == p3 + p2 + p1 + p0;
    Associate(p3, p2, p1, p0);
  }

  lemma Associate<T>(a: seq<T>, b: seq<T>, c: seq<T>, d: seq<T>)
    ensures a + (b + (c + d)) == a + b + c + d
  {
  }

  /** Replacing a branch frame on the stack by the children it pushes keeps the pending leaves and shrinks the stack. */
  lemma PendingPushed(stack: seq<Frame>, f: Frame, r: Rect)
    requires f.node.Branch?
    ensures Pending(stack + Pushed(f, r), r) == FindLeaves(f.node, f.path, f.box, f.depth, r) + Pending(stack, r)
    ensures StackSize(stack + Pushed(f, r)) < StackSize(stack) + Size(f.node)
  {
    PendingOfPushed(f, r);
    PendingAppend(stack, Pushed(f, r), r);
  }

  /**
   * A popped branch frame's children pushed in the order TL, TR, BL, BR,
   * each one only when the rectangle selects it.
   */
  method PushChildren(stack: seq<Frame>, nd: Frame, r: Rect) returns (s: seq<Frame>)
    requires nd.node.Branch?
    ensures s == stack + Pushed(nd, r)
  {
    s := stack;
    if r.top <= nd.box.my {
      if r.lft <= nd.box.mx {
        s := s + [ChildFrame(nd, 0)];
      }
      if r.rgt > nd.box.mx {
        s := s + [ChildFrame(nd, 1)];
      }
    }
    assert s == stack + Opt(nd, r, 0) + Opt(nd, r, 1);
    if r.btm > nd.box.my {
      if r.lft <= nd.box.mx {
        s := s + [ChildFrame(nd, 2)];
      }
      if r.rgt > nd.box.mx {
        s := s + [ChildFrame(nd, 3)];
      }
    }
    assert s == stack + Opt(nd, r, 0) + Opt(nd, r, 1) + Opt(nd, r, 2) + Opt(nd, r, 3);
  }

  /**
   * `find_leaves`: an explicit stack of frames, starting from `start`; a
   * popped leaf is appended to the result, a popped branch pushes its
   * children that the rectangle selects.
   */
  method CollectLeaves(start: Frame, r: Rect) returns (leaves: seq<Frame>)
    ensures leaves == FindLeaves(start.node, start.path, start.box, start.depth, r)
  {
    leaves := [];
    var toProcess := [start];
    StackPush([], start, r);
    while |toProcess| > 0
      invariant leaves + Pending(toProcess, r) == FindLeaves(start.node, start.path, start.box, start.depth, r)
      decreases StackSize(toProcess)
    {
      var nd := toProcess[|toProcess| - 1];
      var rest := toProcess[..|toProcess| - 1];
      assert toProcess == rest + [nd];
      StackPush(rest, nd, r);
      if nd.node.Leaf? {
        leaves := leaves + [nd];
        toProcess := rest;
      } else {
        PendingPushed(rest, nd, r);
        toProcess := PushChildren(rest, nd, r);
      }
    }
  }

  /**
   * `find_leaf`: from `start`, a popped branch pushes the one child whose
   * quadrant holds the point, until a leaf is popped. The Java stack never
   * holds more than one frame, so it is the current frame here.
   */
  method LocateLeaf(start: Frame, x: int, y: int) returns (leaf: Frame)
    ensures leaf == FindLeaf(start.node, start.path, start.box, start.depth, x, y)
    ensures leaf.node.Leaf?
  {
    var nd := start;
    while nd.node.Branch?
      invariant FindLeaf(nd.node, nd.path, nd.box, nd.depth, x, y) == FindLeaf(start.node, start.path, start.box, start.depth, x, y)
      decreases Size(nd.node)
    {
      if y <= nd.box.my {
        if x <= nd.box.mx {
          nd := ChildFrame(nd, 0);
        } else {
          nd := ChildFrame(nd, 1);
        }
      } else {
        if x <= nd.box.mx {
          nd := ChildFrame(nd, 2);
        } else {
          nd := ChildFrame(nd, 3);
        }
      }
    }
    leaf := nd;
  }

  /** `find_leaves` for the degenerate rectangle of a point lists exactly the leaf `find_leaf` reaches. */
  lemma {:induction false} FindLeavesOfPoint(t: QNode, path: seq<int>, b: Box, depth: int, x: int, y: int)
    ensures FindLeaves(t, path, b, depth, Rect(x, y, x, y)) == [FindLeaf(t, path, b, depth, x, y)]
  {
    match t
    case Leaf(_) =>
    case Branch(_, _, _, _) =>
      var q := Quadrant(b, x, y);
      FindLeavesOfPoint(Child(t, q), path + [q], ChildBox(b, q), depth + 1, x, y);
      SelectsPoint(b, x, y, 0);
      SelectsPoint(b, x, y, 1);
      SelectsPoint(b, x, y, 2);
      SelectsPoint(b, x, y, 3);
  }

  /** Every rectangle containing a point lists the leaf `find_leaf` reaches for it. */
  lemma {:induction false} FindLeafListed(t: QNode, path: seq<int>, b: Box, depth: int, r: Rect, x: int, y: int)
    requires r.lft <= x <= r.rgt && r.top <= y <= r.btm
    ensures FindLeaf(t, path, b, depth, x, y) in FindLeaves(t, path, b, depth, r)
  {
    match t
    case Leaf(_) =>
    case Branch(_, _, _, _) =>
      var q := Quadrant(b, x, y);
      SelectsQuadrant(b, r, x, y);
      FindLeafListed(Child(t, q), path + [q], ChildBox(b, q), depth + 1, r, x, y);
  }

  // ---------------------------------------------------------------------------
  // Contents
  // ---------------------------------------------------------------------------

  /** The element indices in the leaves of `t`, with one count per leaf that lists one. */
  function Elements(t: QNode): multiset<int>
  {
    match t
    case Leaf(es) => multiset(es)
    case Branch(c0, c1, c2, c3) => Elements(c0) + Elements(c1) + Elements(c2) + Elements(c3)
  }

  /** The element indices held anywhere in `t`. */
  function Members(t: QNode): set<int>
  {
    match t
    case Leaf(es) => set e | e in es
    case Branch(c0, c1, c2, c3) => Members(c0) + Members(c1) + Members(c2) + Members(c3)
  }

  /** An index is held exactly when some leaf lists it. */
  lemma {:induction false} MembersOfElements(t: QNode)
    ensures forall x :: x in Members(t) <==> x in Elements(t)
  {
    match t
    case Leaf(es) =>
    case Branch(c0, c1, c2, c3) =>
      MembersOfElements(c0);
      MembersOfElements(c1);
      MembersOfElements(c2);
      MembersOfElements(c3);
  }

  // ---------------------------------------------------------------------------
  // node_insert and leaf_insert
  // ---------------------------------------------------------------------------

  /**
   * What insertion reads besides the tree: each element's position (its
   * `elt_idx_mx`, `elt_idx_my` fields), the element half-size (zero for
   * points), `max_elements` and `max_depth`.
   */
  datatype Env = Env(pos: map<int, (int, int)>, ex: int, ey: int, maxElements: int, maxDepth: int)

  /** The rectangle an element covers: its position widened by the half-size. */
  function ElementRect(env: Env, e: int): Rect
  {
    var p := if e in env.pos then env.pos[e] else (0, 0);
    Rect(p.0 - env.ex, p.1 - env.ey, p.0 + env.ex, p.1 + env.ey)
  }

  /** How many more levels of splitting `max_depth` allows below `depth`. */
  function Clip(depth: int, env: Env): nat
  {
    if depth < env.maxDepth then env.maxDepth - depth else 0
  }

  /** `node_insert`: the element goes into every leaf below `t` that its rectangle reaches. */
  function NodeInsert(t: QNode, b: Box, depth: int, e: int, env: Env): QNode
    decreases 2 * Clip(depth, env), Size(t), 2
  {
    match t
    case Leaf(es) => LeafInsert(es, b, depth, e, env)
    case Branch(c0, c1, c2, c3) => Distribute(c0, c1, c2, c3, b, depth, e, env)
  }

  /** `node_insert` on a branch at `depth`: into each child its rectangle selects. */
  function Distribute(c0: QNode, c1: QNode, c2: QNode, c3: QNode, b: Box, depth: int, e: int, env: Env): (r: QNode)
    ensures r.Branch?
    decreases 2 * Clip(depth + 1, env), Size(c0) + Size(c1) + Size(c2) + Size(c3) + 1, 0
  {
    Branch(InsertChild(c0, b, 0, depth, e, env), InsertChild(c1, b, 1, depth, e, env),
           InsertChild(c2, b, 2, depth, e, env), InsertChild(c3, b, 3, depth, e, env))
  }

  /** Child `i` of a branch at `depth` with extents `b` after inserting the element. */
  function InsertChild(c: QNode, b: Box, i: int, depth: int, e: int, env: Env): QNode
    decreases 2 * Clip(depth + 1, env), Size(c), 3
  {
    if Selects(b, ElementRect(env, e), i) then NodeInsert(c, ChildBox(b, i), depth + 1, e, env) else c
  }

  /**
   * `leaf_insert`: the element is prepended to the leaf's list. A leaf that
   * already held `max_elements` above `max_depth` splits: it becomes a branch
   * of four empty leaves and its elements, the new one first, are inserted
   * into it again in list order.
   */
  function LeafInsert(es: seq<int>, b: Box, depth: int, e: int, env: Env): QNode
    decreases 2 * Clip(depth, env), 1, 1
  {
    if |es| == env.maxElements && depth < env.maxDepth then
      Reinsert(Leaf([]), Leaf([]), Leaf([]), Leaf([]), b, depth, [e] + es, env)
    else
      Leaf([e] + es)
  }

  /** The split's loop: each element in turn inserted into the branch at `depth`. */
  function Reinsert(c0: QNode, c1: QNode, c2: QNode, c3: QNode, b: Box, depth: int, elems: seq<int>, env: Env): QNode
    decreases 2 * Clip(depth + 1, env) + 1, |elems|, 0
  {
    if elems == [] then Branch(c0, c1, c2, c3)
    else
      var n := Distribute(c0, c1, c2, c3, b, depth, elems[0], env);
      Reinsert(n.tl, n.tr, n.bl, n.br, b, depth, elems[1..], env)
  }

  /**
   * Insertion adds no index but the new element's, and, with a non-negative
   * half-size, adds exactly that one to the indices held.
   */
  lemma {:induction false} NodeInsertMembers(t: QNode, b: Box, depth: int, e: int, env: Env)
    ensures Members(NodeInsert(t, b, depth, e, env)) <= Members(t) + {e}
    ensures env.ex >= 0 && env.ey >= 0 ==> Members(NodeInsert(t, b, depth, e, env)) == Members(t) + {e}
    decreases 2 * Clip(depth, env), Size(t), 2
  {
    match t
    case Leaf(es) => LeafInsertMembers(es, b, depth, e, env);
    case Branch(c0, c1, c2, c3) => DistributeMembers(c0, c1, c2, c3, b, depth, e, env);
  }

  lemma {:induction false} DistributeMembers(c0: QNode, c1: QNode, c2: QNode, c3: QNode, b: Box, depth: int, e: int, env: Env)
    ensures Members(Distribute(c0, c1, c2, c3, b, depth, e, env)) <= Members(Branch(c0, c1, c2, c3)) + {e}
    ensures env.ex >= 0 && env.ey >= 0 ==>
      Members(Distribute(c0, c1, c2, c3, b, depth, e, env)) == Members(Branch(c0, c1, c2, c3)) + {e}
    decreases 2 * Clip(depth + 1, env), Size(c0) + Size(c1) + Size(c2) + Size(c3) + 1, 0
  {
    var er := ElementRect(env, e);
    InsertChildMembers(c0, b, 0, depth, e, env);
    InsertChildMembers(c1, b, 1, depth, e, env);
    InsertChildMembers(c2, b, 2, depth, e, env);
    InsertChildMembers(c3, b, 3, depth, e, env);
    var m0, m1, m2, m3 := Members(c0), Members(c1), Members(c2), Members(c3);
    var n0, n1, n2, n3 := Members(InsertChild(c0, b, 0, depth, e, env)), Members(InsertChild(c1, b, 1, depth, e, env)),
      Members(InsertChild(c2, b, 2, depth, e, env)), Members(InsertChild(c3, b, 3, depth, e, env));
    var s0, s1, s2, s3 := Selects(b, er, 0), Selects(b, er, 1), Selects(b, er, 2), Selects(b, er, 3);
    UnionAtMost(m0, m1, m2, m3, n0, n1, n2, n3, s0, s1, s2, s3, e);
    if env.ex >= 0 && env.ey >= 0 {
      SelectsSome(b, er);
      UnionExactly(m0, m1, m2, m3, n0, n1, n2, n3, s0, s1, s2, s3, e);
    }
  }

  /** Adding at most `e` to each of four sets adds at most `e` to their union. */
  lemma UnionAtMost(m0: set<int>, m1: set<int>, m2: set<int>, m3: set<int>,
                    n0: set<int>, n1: set<int>, n2: set<int>, n3: set<int>,
                    s0: bool, s1: bool, s2: bool, s3: bool, e: int)
    requires (s0 ==> n0 <= m0 + {e}) && (!s0 ==> n0 == m0)
    requires (s1 ==> n1 <= m1 + {e}) && (!s1 ==> n1 == m1)
    requires (s2 ==> n2 <= m2 + {e}) && (!s2 ==> n2 == m2)
    requires (s3 ==> n3 <= m3 + {e}) && (!s3 ==> n3 == m3)
    ensures n0 + n1 + n2 + n3 <= m0 + m1 + m2 + m3 + {e}
  {
  }

  /** Adding `e` to at least one of four sets and nothing else adds exactly `e` to their union. */
  lemma UnionExactly(m0: set<int>, m1: set<int>, m2: set<int>, m3: set<int>,
                     n0: set<int>, n1: set<int>, n2: set<int>, n3: set<int>,
                     s0: bool, s1: bool, s2: bool, s3: bool, e: int)
    requires s0 || s1 || s2 || s3
    requires (s0 ==> n0 == m0 + {e}) && (!s0 ==> n0 == m0)
    requires (s1 ==> n1 == m1 + {e}) && (!s1 ==> n1 == m1)
    requires (s2 ==> n2 == m2 + {e}) && (!s2 ==> n2 == m2)
    requires (s3 ==> n3 == m3 + {e}) && (!s3 ==> n3 == m3)
    ensures n0 + n1 + n2 + n3 == m0 + m1 + m2 + m3 + {e}
  {
  }

  lemma {:induction false} InsertChildMembers(c: QNode, b: Box, i: int, depth: int, e: int, env: Env)
    ensures Selects(b, ElementRect(env, e), i) ==> Members(InsertChild(c, b, i, depth, e, env)) <= Members(c) + {e}
    ensures Selects(b, ElementRect(env, e), i) && env.ex >= 0 && env.ey >= 0 ==>
      Members(InsertChild(c, b, i, depth, e, env)) == Members(c) + {e}
    ensures !Selects(b, ElementRect(env, e), i) ==> InsertChild(c, b, i, depth, e, env) == c
    decreases 2 * Clip(depth + 1, env), Size(c), 3
  {
    if Selects(b, ElementRect(env, e), i) {
      NodeInsertMembers(c, ChildBox(b, i), depth + 1, e, env);
    }
  }

  lemma {:induction false} LeafInsertMembers(es: seq<int>, b: Box, depth: int, e: int, env: Env)
    ensures Members(LeafInsert(es, b, depth, e, env)) <= Members(Leaf(es)) + {e}
    ensures env.ex >= 0 && env.ey >= 0 ==> Members(LeafInsert(es, b, depth, e, env)) == Members(Leaf(es)) + {e}
    decreases 2 * Clip(depth, env), 1, 1
  {
    if |es| == env.maxElements && depth < env.maxDepth {
      ReinsertMembers(Leaf([]), Leaf([]), Leaf([]), Leaf([]), b, depth, [e] + es, env);
    }
  }

  lemma {:induction false} ReinsertMembers(c0: QNode, c1: QNode, c2: QNode, c3: QNode, b: Box, depth: int, elems: seq<int>, env: Env)
    ensures Members(Reinsert(c0, c1, c2, c3, b, depth, elems, env)) <= Members(Branch(c0, c1, c2, c3)) + Members(Leaf(elems))
    ensures env.ex >= 0 && env.ey >= 0 ==>
      Members(Reinsert(c0, c1, c2, c3, b, depth, elems, env)) == Members(Branch(c0, c1, c2, c3)) + Members(Leaf(elems))
    decreases 2 * Clip(depth + 1, env) + 1, |elems|, 0
  {
    if elems != [] {
      DistributeMembers(c0, c1, c2, c3, b, depth, elems[0], env);
      var n := Distribute(c0, c1, c2, c3, b, depth, elems[0], env);
      ReinsertMembers(n.tl, n.tr, n.bl, n.br, b, depth, elems[1..], env);
      assert elems == [elems[0]] + elems[1..];
    }
  }

  /** For points (zero half-size), insertion adds the new element once: it lands in exactly one leaf. */
  lemma {:induction false} NodeInsertPoint(t: QNode, b: Box, depth: int, e: int, env: Env)
    requires env.ex == 0 && env.ey == 0
    ensures Elements(NodeInsert(t, b, depth, e, env)) == Elements(t) + multiset{e}
    decreases 2 * Clip(depth, env), Size(t), 2
  {
    match t
    case Leaf(es) => LeafInsertPoint(es, b, depth, e, env);
    case Branch(c0, c1, c2, c3) => DistributePoint(c0, c1, c2, c3, b, depth, e, env);
  }

  lemma {:induction false} DistributePoint(c0: QNode, c1: QNode, c2: QNode, c3: QNode, b: Box, depth: int, e: int, env: Env)
    requires env.ex == 0 && env.ey == 0
    ensures Elements(Distribute(c0, c1, c2, c3, b, depth, e, env)) == Elements(Branch(c0, c1, c2, c3)) + multiset{e}
    decreases 2 * Clip(depth + 1, env), Size(c0) + Size(c1) + Size(c2) + Size(c3) + 1, 0
  {
    var er := ElementRect(env, e);
    var q := Quadrant(b, er.lft, er.top);
    InsertChildPoint(c0, b, 0, depth, e, env);
    InsertChildPoint(c1, b, 1, depth, e, env);
    InsertChildPoint(c2, b, 2, depth, e, env);
    InsertChildPoint(c3, b, 3, depth, e, env);
    AddToOne(Elements(c0), Elements(c1), Elements(c2), Elements(c3),
      Elements(InsertChild(c0, b, 0, depth, e, env)), Elements(InsertChild(c1, b, 1, depth, e, env)),
      Elements(InsertChild(c2, b, 2, depth, e, env)), Elements(InsertChild(c3, b, 3, depth, e, env)), q, e);
  }

  /** Adding `e` to exactly one of four multisets adds it once to their sum. */
  lemma AddToOne(m0: multiset<int>, m1: multiset<int>, m2: multiset<int>, m3: multiset<int>,
                 n0: multiset<int>, n1: multiset<int>, n2: multiset<int>, n3: multiset<int>, q: int, e: int)
    requires 0 <= q < 4
    requires n0 == m0 + (if q == 0 then multiset{e} else multiset{})
    requires n1 == m1 + (if q == 1 then multiset{e} else multiset{})
    requires n2 == m2 + (if q == 2 then multiset{e} else multiset{})
    requires n3 == m3 + (if q == 3 then multiset{e} else multiset{})
    ensures n0 + n1 + n2 + n3 == m0 + m1 + m2 + m3 + multiset{e}
  {
  }

  lemma {:induction false} InsertChildPoint(c: QNode, b: Box, i: int, depth: int, e: int, env: Env)
    requires env.ex == 0 && env.ey == 0 && 0 <= i < 4
    ensures var er := ElementRect(env, e);
      Elements(InsertChild(c, b, i, depth, e, env))
      == Elements(c) + (if i == Quadrant(b, er.lft, er.top) then multiset{e} else multiset{})
    decreases 2 * Clip(depth + 1, env), Size(c), 3
  {
    var er := ElementRect(env, e);
    SelectsPoint(b, er.lft, er.top, i);
    if Selects(b, er, i) {
      NodeInsertPoint(c, ChildBox(b, i), depth + 1, e, env);
    }
  }

  lemma {:induction false} LeafInsertPoint(es: seq<int>, b: Box, depth: int, e: int, env: Env)
    requires env.ex == 0 && env.ey == 0
    ensures Elements(LeafInsert(es, b, depth, e, env)) == multiset(es) + multiset{e}
    decreases 2 * Clip(depth, env), 1, 1
  {
    if |es| == env.maxElements && depth < env.maxDepth {
      ReinsertPoint(Leaf([]), Leaf([]), Leaf([]), Leaf([]), b, depth, [e] + es, env);
    }
  }

  lemma {:induction false} ReinsertPoint(c0: QNode, c1: QNode, c2: QNode, c3: QNode, b: Box, depth: int, elems: seq<int>, env: Env)
    requires env.ex == 0 && env.ey == 0
    ensures Elements(Reinsert(c0, c1, c2, c3, b, depth, elems, env)) == Elements(Branch(c0, c1, c2, c3)) + multiset(elems)
    decreases 2 * Clip(depth + 1, env) + 1, |elems|, 0
  {
    if elems != [] {
      DistributePoint(c0, c1, c2, c3, b, depth, elems[0], env);
      var n := Distribute(c0, c1, c2, c3, b, depth, elems[0], env);
      ReinsertPoint(n.tl, n.tr, n.bl, n.br, b, depth, elems[1..], env);
      assert elems == [elems[0]] + elems[1..];
    }
  }

  // ---------------------------------------------------------------------------
  // Placement
  // ---------------------------------------------------------------------------

  /**
   * Every element below a branch sits only in children that its rectangle
   * selects: the invariant that lets `remove` find an element again by
   * descending with its position.
   */
  ghost predicate Placed(t: QNode, b: Box, env: Env)
  {
    match t
    case Leaf(_) => true
    case Branch(c0, c1, c2, c3) =>
      (forall x :: x in Members(c0) ==> Selects(b, ElementRect(env, x), 0))
      && (forall x :: x in Members(c1) ==> Selects(b, ElementRect(env, x), 1))
      && (forall x :: x in Members(c2) ==> Selects(b, ElementRect(env, x), 2))
      && (forall x :: x in Members(c3) ==> Selects(b, ElementRect(env, x), 3))
      && Placed(c0, ChildBox(b, 0), env) && Placed(c1, ChildBox(b, 1), env)
      && Placed(c2, ChildBox(b, 2), env) && Placed(c3, ChildBox(b, 3), env)
  }

  /** Insertion keeps every element placed. */
  lemma {:induction false} NodeInsertPlaced(t: QNode, b: Box, depth: int, e: int, env: Env)
    requires Placed(t, b, env)
    ensures Placed(NodeInsert(t, b, depth, e, env), b, env)
    decreases 2 * Clip(depth, env), Size(t), 2
  {
    match t
    case Leaf(es) => LeafInsertPlaced(es, b, depth, e, env);
    case Branch(c0, c1, c2, c3) => DistributePlaced(c0, c1, c2, c3, b, depth, e, env);
  }

  lemma {:induction false} DistributePlaced(c0: QNode, c1: QNode, c2: QNode, c3: QNode, b: Box, depth: int, e: int, env: Env)
    requires Placed(Branch(c0, c1, c2, c3), b, env)
    ensures Placed(Distribute(c0, c1, c2, c3, b, depth, e, env), b, env)
    decreases 2 * Clip(depth + 1, env), Size(c0) + Size(c1) + Size(c2) + Size(c3) + 1, 0
  {
    InsertChildPlaced(c0, b, 0, depth, e, env);
    InsertChildPlaced(c1, b, 1, depth, e, env);
    InsertChildPlaced(c2, b, 2, depth, e, env);
    InsertChildPlaced(c3, b, 3, depth, e, env);
  }

  lemma {:induction false} InsertChildPlaced(c: QNode, b: Box, i: int, depth: int, e: int, env: Env)
    requires Placed(c, ChildBox(b, i), env) && forall x :: x in Members(c) ==> Selects(b, ElementRect(env, x), i)
    ensures Placed(InsertChild(c, b, i, depth, e, env), ChildBox(b, i), env)
    ensures forall x :: x in Members(InsertChild(c, b, i, depth, e, env)) ==> Selects(b, ElementRect(env, x), i)
    decreases 2 * Clip(depth + 1, env), Size(c), 3
  {
    if Selects(b, ElementRect(env, e), i) {
      NodeInsertPlaced(c, ChildBox(b, i), depth + 1, e, env);
      NodeInsertMembers(c, ChildBox(b, i), depth + 1, e, env);
    }
  }

  lemma {:induction false} LeafInsertPlaced(es: seq<int>, b: Box, depth: int, e: int, env: Env)
    ensures Placed(LeafInsert(es, b, depth, e, env), b, env)
    decreases 2 * Clip(depth, env), 1, 1
  {
    if |es| == env.maxElements && depth < env.maxDepth {
      ReinsertPlaced(Leaf([]), Leaf([]), Leaf([]), Leaf([]), b, depth, [e] + es, env);
    }
  }

  lemma {:induction false} ReinsertPlaced(c0: QNode, c1: QNode, c2: QNode, c3: QNode, b: Box, depth: int, elems: seq<int>, env: Env)
    requires Placed(Branch(c0, c1, c2, c3), b, env)
    ensures Placed(Reinsert(c0, c1, c2, c3, b, depth, elems, env), b, env)
    decreases 2 * Clip(depth + 1, env) + 1, |elems|, 0
  {
    if elems != [] {
      DistributePlaced(c0, c1, c2, c3, b, depth, elems[0], env);
      var n := Distribute(c0, c1, c2, c3, b, depth, elems[0], env);
      ReinsertPlaced(n.tl, n.tr, n.bl, n.br, b, depth, elems[1..], env);
    }
  }

  /** Placement depends only on the rectangles of the elements the tree holds. */
  lemma {:induction false} PlacedFrame(t: QNode, b: Box, env: Env, env': Env)
    requires forall x :: x in Members(t) ==> ElementRect(env, x) == ElementRect(env', x)
    requires Placed(t, b, env)
    ensures Placed(t, b, env')
  {
    match t
    case Leaf(_) =>
    case Branch(c0, c1, c2, c3) =>
      PlacedFrame(c0, ChildBox(b, 0), env, env');
      PlacedFrame(c1, ChildBox(b, 1), env, env');
      PlacedFrame(c2, ChildBox(b, 2), env, env');
      PlacedFrame(c3, ChildBox(b, 3), env, env');
  }

  /** For points, a placed element is in the leaf `find_leaf` reaches for its position. */
  lemma {:induction false} PlacedFindLeaf(t: QNode, path: seq<int>, b: Box, depth: int, e: int, env: Env)
    requires env.ex == 0 && env.ey == 0 && Placed(t, b, env) && e in Members(t)
    ensures var r := ElementRect(env, e); e in FindLeaf(t, path, b, depth, r.lft, r.top).node.elements
  {
    var r := ElementRect(env, e);
    match t
    case Leaf(_) =>
    case Branch(c0, c1, c2, c3) =>
      var q := Quadrant(b, r.lft, r.top);
      SelectsPoint(b, r.lft, r.top, 0);
      SelectsPoint(b, r.lft, r.top, 1);
      SelectsPoint(b, r.lft, r.top, 2);
      SelectsPoint(b, r.lft, r.top, 3);
      PlacedFindLeaf(Child(t, q), path + [q], ChildBox(b, q), depth + 1, e, env);
  }

  // ---------------------------------------------------------------------------
  // remove
  // ---------------------------------------------------------------------------

  /** A leaf's list with the first node holding `e` unlinked (unchanged when there is none). */
  function RemoveFirst(es: seq<int>, e: int): seq<int>
  {
    if es == [] then []
    else if es[0] == e then es[1..]
    else [es[0]] + RemoveFirst(es[1..], e)
  }

  /** Unlinking takes away one occurrence of `e` when there is one, and changes nothing otherwise. */
  lemma {:induction false} RemoveFirstContents(es: seq<int>, e: int)
    ensures e in es ==> multiset(RemoveFirst(es, e)) == multiset(es) - multiset{e}
    ensures e !in es ==> RemoveFirst(es, e) == es
  {
    if es != [] {
      assert es == [es[0]] + es[1..];
      RemoveFirstContents(es[1..], e);
    }
  }

  /** On a list without repeats, unlinking leaves no trace of `e` and introduces no repeat. */
  lemma {:induction false} RemoveFirstDistinct(es: seq<int>, e: int)
    requires Distinct(es)
    ensures e !in RemoveFirst(es, e) && Distinct(RemoveFirst(es, e))
    ensures forall x :: x in RemoveFirst(es, e) <==> x in es && x != e
  {
    if es != [] && es[0] != e {
      assert Distinct(es[1..]) by {
        forall i, j | 0 <= i < j < |es[1..]| ensures es[1..][i] != es[1..][j] {
          assert es[1..][i] == es[i + 1] && es[1..][j] == es[j + 1];
        }
      }
      RemoveFirstDistinct(es[1..], e);
      var rest := RemoveFirst(es[1..], e);
      assert RemoveFirst(es, e) == [es[0]] + rest;
      assert es[0] !in es[1..] by {
        forall k | 0 <= k < |es[1..]| ensures es[1..][k] != es[0] {
          assert es[1..][k] == es[k + 1];
        }
      }
      forall i, j | 0 <= i < j < |[es[0]] + rest| ensures ([es[0]] + rest)[i] != ([es[0]] + rest)[j] {
        assert ([es[0]] + rest)[j] == rest[j - 1];
        if i > 0 {
          assert ([es[0]] + rest)[i] == rest[i - 1];
        }
      }
    } else if es != [] {
      assert RemoveFirst(es, e) == es[1..];
      assert e !in es[1..] by {
        forall k | 0 <= k < |es[1..]| ensures es[1..][k] != e {
          assert es[1..][k] == es[k + 1];
        }
      }
      forall i, j | 0 <= i < j < |es[1..]| ensures es[1..][i] != es[1..][j] {
        assert es[1..][i] == es[i + 1] && es[1..][j] == es[j + 1];
      }
    }
  }

  lemma {:induction false} RemoveFirstAfter(es: seq<int>, e: int, i: int)
    requires 0 <= i <= |es| && forall k :: 0 <= k < i ==> es[k] != e
    ensures RemoveFirst(es, e) == es[..i] + RemoveFirst(es[i..], e)
    decreases i
  {
    if i > 0 {
      assert RemoveFirst(es, e) == [es[0]] + RemoveFirst(es[1..], e);
      RemoveFirstAfter(es[1..], e, i - 1);
      assert es[1..][i - 1..] == es[i..];
      assert es[..i] == [es[0]] + es[1..][..i - 1];
    }
  }

  /**
   * `remove`'s walk of a leaf's list: advance while the current node holds
   * another element, then unlink the node found, if any.
   */
  method Unlink(es: seq<int>, e: int) returns (rest: seq<int>, found: bool)
    ensures rest == RemoveFirst(es, e)
    ensures found <==> e in es
  {
    var i := 0;
    while i < |es| && es[i] != e
      invariant 0 <= i <= |es| && forall k :: 0 <= k < i ==> es[k] != e
    {
      i := i + 1;
    }
    RemoveFirstAfter(es, e, i);
    found := i < |es|;
    if found {
      assert es[i..] == [e] + es[i + 1..];
      rest := es[..i] + es[i + 1..];
    } else {
      assert es[..i] == es;
      rest := es;
    }
  }

  /** `t` with the node at `path` replaced by `n` (unchanged when the path leaves the tree). */
  function Replace(t: QNode, path: seq<int>, n: QNode): QNode
  {
    if path == [] then n
    else match t
      case Leaf(_) => t
      case Branch(c0, c1, c2, c3) =>
        var i := path[0];
        Branch(if i == 0 then Replace(c0, path[1..], n) else c0,
               if i == 1 then Replace(c1, path[1..], n) else c1,
               if i == 2 then Replace(c2, path[1..], n) else c2,
               if i == 3 then Replace(c3, path[1..], n) else c3)
  }

  /** The path of the leaf `find_leaf` reaches, below the frame it starts from. */
  function Route(t: QNode, b: Box, x: int, y: int): seq<int>
  {
    match t
    case Leaf(_) => []
    case Branch(_, _, _, _) =>
      var q := Quadrant(b, x, y);
      [q] + Route(Child(t, q), ChildBox(b, q), x, y)
  }

  lemma {:induction false} FindLeafRoute(t: QNode, path: seq<int>, b: Box, depth: int, x: int, y: int)
    ensures FindLeaf(t, path, b, depth, x, y).path == path + Route(t, b, x, y)
  {
    match t
    case Leaf(_) =>
    case Branch(_, _, _, _) =>
      var q := Quadrant(b, x, y);
      FindLeafRoute(Child(t, q), path + [q], ChildBox(b, q), depth + 1, x, y);
  }

  /** Replacing one of four multisets changes their sum by the same difference. */
  lemma ReplaceOne(m0: multiset<int>, m1: multiset<int>, m2: multiset<int>, m3: multiset<int>,
                   n0: multiset<int>, n1: multiset<int>, n2: multiset<int>, n3: multiset<int>,
                   q: int, old_: multiset<int>, new_: multiset<int>)
    requires 0 <= q < 4
    requires q != 0 ==> n0 == m0
    requires q != 1 ==> n1 == m1
    requires q != 2 ==> n2 == m2
    requires q != 3 ==> n3 == m3
    requires (if q == 0 then n0 else if q == 1 then n1 else if q == 2 then n2 else n3) + old_
      == (if q == 0 then m0 else if q == 1 then m1 else if q == 2 then m2 else m3) + new_
    ensures n0 + n1 + n2 + n3 + old_ == m0 + m1 + m2 + m3 + new_
  {
    if q == 0 {
      assert n0 + old_ == m0 + new_;
    } else if q == 1 {
      assert n1 + old_ == m1 + new_;
    } else if q == 2 {
      assert n2 + old_ == m2 + new_;
    } else {
      assert n3 + old_ == m3 + new_;
    }
    forall x
      ensures (n0 + n1 + n2 + n3 + old_)[x] == (m0 + m1 + m2 + m3 + new_)[x]
    {
      if q == 0 {
        assert (n0 + old_)[x] == (m0 + new_)[x];
      } else if q == 1 {
        assert (n1 + old_)[x] == (m1 + new_)[x];
      } else if q == 2 {
        assert (n2 + old_)[x] == (m2 + new_)[x];
      } else {
        assert (n3 + old_)[x] == (m3 + new_)[x];
      }
    }
  }

  /** Replacing the leaf `find_leaf` reaches changes the contents by exactly the difference of the two nodes. */
  lemma {:induction false} ReplaceFoundElements(t: QNode, b: Box, x: int, y: int, n: QNode)
    ensures Elements(Replace(t, Route(t, b, x, y), n)) + Elements(FindLeaf(t, [], b, 0, x, y).node)
      == Elements(t) + Elements(n)
  {
    match t
    case Leaf(_) =>
    case Branch(c0, c1, c2, c3) =>
      var q := Quadrant(b, x, y);
      var c := Child(t, q);
      ReplaceFoundElements(c, ChildBox(b, q), x, y, n);
      FindLeafFrom(c, [q], ChildBox(b, q), 1, x, y);
      assert [] + [q] == [q];
      var t' := Replace(t, Route(t, b, x, y), n);
      assert Route(t, b, x, y)[1..] == Route(c, ChildBox(b, q), x, y);
      ReplaceOne(Elements(c0), Elements(c1), Elements(c2), Elements(c3),
                 Elements(t'.tl), Elements(t'.tr), Elements(t'.bl), Elements(t'.br),
                 q, Elements(FindLeaf(t, [], b, 0, x, y).node), Elements(n));
  }

  /** Where `find_leaf` starts (path and depth) does not change the leaf it reaches. */
  lemma {:induction false} FindLeafFrom(t: QNode, path: seq<int>, b: Box, depth: int, x: int, y: int)
    ensures FindLeaf(t, path, b, depth, x, y).node == FindLeaf(t, [], b, 0, x, y).node
  {
    match t
    case Leaf(_) =>
    case Branch(_, _, _, _) =>
      var q := Quadrant(b, x, y);
      FindLeafFrom(Child(t, q), path + [q], ChildBox(b, q), depth + 1, x, y);
      FindLeafFrom(Child(t, q), [q], ChildBox(b, q), 1, x, y);
      assert [] + [q] == [q];
  }

  /** Replacing the leaf `find_leaf` reaches by one holding a subset of its elements keeps every element placed. */
  lemma {:induction false} ReplaceFoundPlaced(t: QNode, b: Box, x: int, y: int, n: QNode, env: Env)
    requires Members(n) <= Members(FindLeaf(t, [], b, 0, x, y).node)
    ensures Members(Replace(t, Route(t, b, x, y), n)) <= Members(t)
    ensures Placed(t, b, env) && n.Leaf? ==> Placed(Replace(t, Route(t, b, x, y), n), b, env)
  {
    match t
    case Leaf(_) =>
    case Branch(c0, c1, c2, c3) =>
      var q := Quadrant(b, x, y);
      var c := Child(t, q);
      FindLeafFrom(c, [q], ChildBox(b, q), 1, x, y);
      assert [] + [q] == [q];
      ReplaceFoundPlaced(c, ChildBox(b, q), x, y, n, env);
      assert Route(t, b, x, y)[1..] == Route(c, ChildBox(b, q), x, y);
  }

  /**
   * `remove` in `QuadtreeAABBStatic`: the first node holding `e` unlinked
   * from every leaf that the element's rectangle `r` reaches.
   */
  function RemoveRect(t: QNode, b: Box, r: Rect, e: int): QNode
  {
    match t
    case Leaf(es) => Leaf(RemoveFirst(es, e))
    case Branch(c0, c1, c2, c3) =>
      Branch(if Selects(b, r, 0) then RemoveRect(c0, ChildBox(b, 0), r, e) else c0,
             if Selects(b, r, 1) then RemoveRect(c1, ChildBox(b, 1), r, e) else c1,
             if Selects(b, r, 2) then RemoveRect(c2, ChildBox(b, 2), r, e) else c2,
             if Selects(b, r, 3) then RemoveRect(c3, ChildBox(b, 3), r, e) else c3)
  }

  ghost predicate Distinct(es: seq<int>)
  {
    forall i, j :: 0 <= i < j < |es| ==> es[i] != es[j]
  }

  /** No leaf lists an element twice. */
  ghost predicate LeafDistinct(t: QNode)
  {
    match t
    case Leaf(es) => Distinct(es)
    case Branch(c0, c1, c2, c3) => LeafDistinct(c0) && LeafDistinct(c1) && LeafDistinct(c2) && LeafDistinct(c3)
  }

  /** Taking `e` out of each of four sets takes it out of their union. */
  lemma UnionMinus(m0: set<int>, m1: set<int>, m2: set<int>, m3: set<int>,
                   n0: set<int>, n1: set<int>, n2: set<int>, n3: set<int>, e: int)
    requires n0 == m0 - {e} && n1 == m1 - {e} && n2 == m2 - {e} && n3 == m3 - {e}
    ensures n0 + n1 + n2 + n3 == m0 + m1 + m2 + m3 - {e}
  {
  }

  /**
   * With every element placed and no leaf listing one twice, unlinking `e`
   * from the leaves its rectangle reaches takes it out of the tree entirely,
   * and both invariants still hold.
   */
  lemma {:induction false} RemoveRectMembers(t: QNode, b: Box, e: int, env: Env)
    requires Placed(t, b, env) && LeafDistinct(t)
    ensures var t' := RemoveRect(t, b, ElementRect(env, e), e);
      Members(t') == Members(t) - {e} && Placed(t', b, env) && LeafDistinct(t')
  {
    var r := ElementRect(env, e);
    match t
    case Leaf(es) =>
      RemoveFirstDistinct(es, e);
      forall x ensures x in Members(Leaf(RemoveFirst(es, e))) <==> x in Members(t) - {e} {
        assert x in Members(Leaf(RemoveFirst(es, e))) <==> x in RemoveFirst(es, e);
      }
    case Branch(c0, c1, c2, c3) =>
      forall i | 0 <= i < 4
        ensures var c' := if Selects(b, r, i) then RemoveRect(Child(t, i), ChildBox(b, i), r, e) else Child(t, i);
          Members(c') == Members(Child(t, i)) - {e} && Placed(c', ChildBox(b, i), env) && LeafDistinct(c')
      {
        if Selects(b, r, i) {
          RemoveRectMembers(Child(t, i), ChildBox(b, i), e, env);
        }
      }
      var t' := RemoveRect(t, b, r, e);
      assert Child(t, 0) == c0 && Child(t, 1) == c1 && Child(t, 2) == c2 && Child(t, 3) == c3;
      UnionMinus(Members(c0), Members(c1), Members(c2), Members(c3),
                 Members(t'.tl), Members(t'.tr), Members(t'.bl), Members(t'.br), e);
  }

  /** Inserting an element no leaf lists yet keeps every leaf free of repeats. */
  lemma {:induction false} NodeInsertDistinct(t: QNode, b: Box, depth: int, e: int, env: Env)
    requires LeafDistinct(t) && e !in Members(t)
    ensures LeafDistinct(NodeInsert(t, b, depth, e, env))
    decreases 2 * Clip(depth, env), Size(t), 2
  {
    match t
    case Leaf(es) => LeafInsertDistinct(es, b, depth, e, env);
    case Branch(c0, c1, c2, c3) => DistributeDistinct(c0, c1, c2, c3, b, depth, e, env);
  }

  lemma {:induction false} DistributeDistinct(c0: QNode, c1: QNode, c2: QNode, c3: QNode, b: Box, depth: int, e: int, env: Env)
    requires LeafDistinct(Branch(c0, c1, c2, c3)) && e !in Members(Branch(c0, c1, c2, c3))
    ensures LeafDistinct(Distribute(c0, c1, c2, c3, b, depth, e, env))
    decreases 2 * Clip(depth + 1, env), Size(c0) + Size(c1) + Size(c2) + Size(c3) + 1, 0
  {
    InsertChildDistinct(c0, b, 0, depth, e, env);
    InsertChildDistinct(c1, b, 1, depth, e, env);
    InsertChildDistinct(c2, b, 2, depth, e, env);
    InsertChildDistinct(c3, b, 3, depth, e, env);
  }

  lemma {:induction false} InsertChildDistinct(c: QNode, b: Box, i: int, depth: int, e: int, env: Env)
    requires LeafDistinct(c) && e !in Members(c)
    ensures LeafDistinct(InsertChild(c, b, i, depth, e, env))
    decreases 2 * Clip(depth + 1, env), Size(c), 3
  {
    if Selects(b, ElementRect(env, e), i) {
      NodeInsertDistinct(c, ChildBox(b, i), depth + 1, e, env);
    }
  }

  lemma {:induction false} LeafInsertDistinct(es: seq<int>, b: Box, depth: int, e: int, env: Env)
    requires Distinct(es) && e !in es
    ensures LeafDistinct(LeafInsert(es, b, depth, e, env))
    decreases 2 * Clip(depth, env), 1, 1
  {
    assert Distinct([e] + es) by {
      forall i, j | 0 <= i < j < |[e] + es| ensures ([e] + es)[i] != ([e] + es)[j] {
        if i > 0 {
          assert ([e] + es)[i] == es[i - 1];
        }
        assert ([e] + es)[j] == es[j - 1];
      }
    }
    if |es| == env.maxElements && depth < env.maxDepth {
      ReinsertDistinct(Leaf([]), Leaf([]), Leaf([]), Leaf([]), b, depth, [e] + es, env);
    }
  }

  lemma {:induction false} ReinsertDistinct(c0: QNode, c1: QNode, c2: QNode, c3: QNode, b: Box, depth: int, elems: seq<int>, env: Env)
    requires LeafDistinct(Branch(c0, c1, c2, c3)) && Distinct(elems)
    requires forall x :: x in elems ==> x !in Members(Branch(c0, c1, c2, c3))
    ensures LeafDistinct(Reinsert(c0, c1, c2, c3, b, depth, elems, env))
    decreases 2 * Clip(depth + 1, env) + 1, |elems|, 0
  {
    if elems != [] {
      DistributeDistinct(c0, c1, c2, c3, b, depth, elems[0], env);
      DistributeMembers(c0, c1, c2, c3, b, depth, elems[0], env);
      var n := Distribute(c0, c1, c2, c3, b, depth, elems[0], env);
      assert Members(n) == Members(Branch(n.tl, n.tr, n.bl, n.br));
      forall x | x in elems[1..] ensures x !in Members(Branch(n.tl, n.tr, n.bl, n.br)) {
        var k :| 1 <= k < |elems| && elems[k] == x;
        assert elems[0] != elems[k];
      }
      ReinsertDistinct(n.tl, n.tr, n.bl, n.br, b, depth, elems[1..], env);
    }
  }
}
