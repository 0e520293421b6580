// Coverage, the second half of the AABB quadtree's placement invariant:
// `Placed` says an element sits only under quadrants its rectangle reaches;
// `Covered` says it sits under every quadrant its rectangle reaches. Insertion
// (which goes into every selected child), `remove`, `cleanup` and
// `cleanupFull` all keep it, and a query relies on it to find every element
// whose rectangle meets the query rectangle.

module QuadtreeCovered {
  import opened QuadtreeNodes
  import opened QuadtreeCleanup

  /** Every element under a branch is under each child its rectangle selects. */
  ghost predicate Covered(t: QNode, b: Box, env: Env)
  {
    match t
    case Leaf(_) => true
    case Branch(c0, c1, c2, c3) =>
      (forall x :: x in Members(t) && Selects(b, ElementRect(env, x), 0) ==> x in Members(c0))
      && (forall x :: x in Members(t) && Selects(b, ElementRect(env, x), 1) ==> x in Members(c1))
      && (forall x :: x in Members(t) && Selects(b, ElementRect(env, x), 2) ==> x in Members(c2))
      && (forall x :: x in Members(t) && Selects(b, ElementRect(env, x), 3) ==> x in Members(c3))
      && Covered(c0, ChildBox(b, 0), env) && Covered(c1, ChildBox(b, 1), env)
      && Covered(c2, ChildBox(b, 2), env) && Covered(c3, ChildBox(b, 3), env)
  }

  /** Coverage depends only on the rectangles of the elements the tree holds. */
  lemma {:induction false} CoveredFrame(t: QNode, b: Box, env: Env, env': Env)
    requires forall x :: x in Members(t) ==> ElementRect(env, x) == ElementRect(env', x)
    requires Covered(t, b, env)
    ensures Covered(t, b, env')
  {
    match t
    case Leaf(_) =>
    case Branch(c0, c1, c2, c3) =>
      CoveredFrame(c0, ChildBox(b, 0), env, env');
      CoveredFrame(c1, ChildBox(b, 1), env, env');
      CoveredFrame(c2, ChildBox(b, 2), env, env');
      CoveredFrame(c3, ChildBox(b, 3), env, env');
  }

  /** With a non-negative half-size, insertion keeps every element under every quadrant it reaches. */
  lemma {:induction false} NodeInsertCovered(t: QNode, b: Box, depth: int, e: int, env: Env)
    requires env.ex >= 0 && env.ey >= 0 && Covered(t, b, env)
    ensures Covered(NodeInsert(t, b, depth, e, env), b, env)
    decreases 2 * Clip(depth, env), Size(t), 2
  {
    match t
    case Leaf(es) => LeafInsertCovered(es, b, depth, e, env);
    case Branch(c0, c1, c2, c3) => DistributeCovered(c0, c1, c2, c3, b, depth, e, env);
  }

  lemma {:induction false} DistributeCovered(c0: QNode, c1: QNode, c2: QNode, c3: QNode, b: Box, depth: int, e: int, env: Env)
    requires env.ex >= 0 && env.ey >= 0 && Covered(Branch(c0, c1, c2, c3), b, env)
    ensures Covered(Distribute(c0, c1, c2, c3, b, depth, e, env), b, env)
    decreases 2 * Clip(depth + 1, env), Size(c0) + Size(c1) + Size(c2) + Size(c3) + 1, 0
  {
    InsertChildCovered(c0, b, 0, depth, e, env);
    InsertChildCovered(c1, b, 1, depth, e, env);
    InsertChildCovered(c2, b, 2, depth, e, env);
    InsertChildCovered(c3, b, 3, depth, e, env);
    DistributeMembers(c0, c1, c2, c3, b, depth, e, env);
    var t := Branch(c0, c1, c2, c3);
    var n := Distribute(c0, c1, c2, c3, b, depth, e, env);
    ChildCovered(t, n, b, 0, depth, e, env);
    ChildCovered(t, n, b, 1, depth, e, env);
    ChildCovered(t, n, b, 2, depth, e, env);
    ChildCovered(t, n, b, 3, depth, e, env);
  }

  /** The coverage condition for child `i` of a branch after inserting `e`. */
  lemma ChildCovered(t: QNode, n: QNode, b: Box, i: int, depth: int, e: int, env: Env)
    requires t.Branch? && 0 <= i < 4 && env.ex >= 0 && env.ey >= 0
    requires n == Distribute(t.tl, t.tr, t.bl, t.br, b, depth, e, env)
    requires Members(n) == Members(t) + {e}
    requires forall x :: x in Members(t) && Selects(b, ElementRect(env, x), i) ==> x in Members(Child(t, i))
    ensures forall x :: x in Members(n) && Selects(b, ElementRect(env, x), i) ==> x in Members(Child(n, i))
  {
    InsertChildMembers(Child(t, i), b, i, depth, e, env);
    assert Child(n, i) == InsertChild(Child(t, i), b, i, depth, e, env);
  }

  lemma {:induction false} InsertChildCovered(c: QNode, b: Box, i: int, depth: int, e: int, env: Env)
    requires env.ex >= 0 && env.ey >= 0 && Covered(c, ChildBox(b, i), env)
    ensures Covered(InsertChild(c, b, i, depth, e, env), ChildBox(b, i), env)
    decreases 2 * Clip(depth + 1, env), Size(c), 3
  {
    if Selects(b, ElementRect(env, e), i) {
      NodeInsertCovered(c, ChildBox(b, i), depth + 1, e, env);
    }
  }

  lemma {:induction false} LeafInsertCovered(es: seq<int>, b: Box, depth: int, e: int, env: Env)
    requires env.ex >= 0 && env.ey >= 0
    ensures Covered(LeafInsert(es, b, depth, e, env), b, env)
    decreases 2 * Clip(depth, env), 1, 1
  {
    if |es| == env.maxElements && depth < env.maxDepth {
      var z := Leaf([]);
      assert Members(z) == {};
      ReinsertCovered(z, z, z, z, b, depth, [e] + es, env);
    }
  }

  lemma {:induction false} ReinsertCovered(c0: QNode, c1: QNode, c2: QNode, c3: QNode, b: Box, depth: int, elems: seq<int>, env: Env)
    requires env.ex >= 0 && env.ey >= 0 && Covered(Branch(c0, c1, c2, c3), b, env)
    ensures Covered(Reinsert(c0, c1, c2, c3, b, depth, elems, env), b, env)
    decreases 2 * Clip(depth + 1, env) + 1, |elems|, 0
  {
    if elems != [] {
      DistributeCovered(c0, c1, c2, c3, b, depth, elems[0], env);
      var n := Distribute(c0, c1, c2, c3, b, depth, elems[0], env);
      ReinsertCovered(n.tl, n.tr, n.bl, n.br, b, depth, elems[1..], env);
    }
  }

  /** Unlinking `e` from the leaves its rectangle reaches keeps every other element where it was. */
  lemma {:induction false} RemoveRectCovered(t: QNode, b: Box, e: int, env: Env)
    requires Placed(t, b, env) && LeafDistinct(t) && Covered(t, b, env)
    ensures Covered(RemoveRect(t, b, ElementRect(env, e), e), b, env)
    decreases t, 0
  {
    match t
    case Leaf(_) =>
    case Branch(c0, c1, c2, c3) =>
      var r := ElementRect(env, e);
      RemoveRectMembers(t, b, e, env);
      var m, m' := Members(t), Members(RemoveRect(t, b, r, e));
      RemoveChild(m, m', c0, b, 0, e, env);
      RemoveChild(m, m', c1, b, 1, e, env);
      RemoveChild(m, m', c2, b, 2, e, env);
      RemoveChild(m, m', c3, b, 3, e, env);
  }

  /**
   * Child `k` of a branch with extents `b` after unlinking `e` (from it only
   * when `e` reaches it; otherwise it never held `e`): still covered, and
   * still covering the branch, whose members go from `m` to `m'`.
   */
  lemma RemoveChild(m: set<int>, m': set<int>, c: QNode, b: Box, k: int, e: int, env: Env)
    requires Placed(c, ChildBox(b, k), env) && LeafDistinct(c) && Covered(c, ChildBox(b, k), env)
    requires !Selects(b, ElementRect(env, e), k) ==> e !in Members(c)
    requires (forall x :: x in m && Selects(b, ElementRect(env, x), k) ==> x in Members(c)) && m' == m - {e}
    ensures var c' := if Selects(b, ElementRect(env, e), k) then RemoveRect(c, ChildBox(b, k), ElementRect(env, e), e) else c;
      Covered(c', ChildBox(b, k), env) && forall x :: x in m' && Selects(b, ElementRect(env, x), k) ==> x in Members(c')
    decreases c, 1
  {
    var cb := ChildBox(b, k);
    if Selects(b, ElementRect(env, e), k) {
      RemoveRectMembers(c, cb, e, env);
      RemoveRectCovered(c, cb, e, env);
    }
  }

  /** `cleanup` keeps coverage: a collapsed branch held nothing. */
  lemma {:induction false} CleanupCovered(t: QNode, b: Box, env: Env)
    requires Covered(t, b, env)
    ensures Covered(CleanupPass(t).0, b, env)
  {
    match t
    case Leaf(_) =>
    case Branch(c0, c1, c2, c3) =>
      if !AllEmpty(c0, c1, c2, c3) {
        CleanupKeeps(c0);
        CleanupKeeps(c1);
        CleanupKeeps(c2);
        CleanupKeeps(c3);
        CleanupCovered(c0, ChildBox(b, 0), env);
        CleanupCovered(c1, ChildBox(b, 1), env);
        CleanupCovered(c2, ChildBox(b, 2), env);
        CleanupCovered(c3, ChildBox(b, 3), env);
      }
  }

  /** `cleanupFull` keeps coverage: a consolidated branch becomes a leaf with the same members. */
  lemma {:induction false} CleanupFullCovered(t: QNode, maxElements: int, dedup: bool, b: Box, env: Env)
    requires Covered(t, b, env)
    ensures Covered(CleanupFullPass(t, maxElements, dedup).0, b, env)
  {
    match t
    case Leaf(_) =>
    case Branch(c0, c1, c2, c3) =>
      if !AllEmpty(c0, c1, c2, c3) && !Merges(c0, c1, c2, c3, maxElements) {
        CleanupFullMembers(c0, maxElements, dedup);
        CleanupFullMembers(c1, maxElements, dedup);
        CleanupFullMembers(c2, maxElements, dedup);
        CleanupFullMembers(c3, maxElements, dedup);
        CleanupFullCovered(c0, maxElements, dedup, ChildBox(b, 0), env);
        CleanupFullCovered(c1, maxElements, dedup, ChildBox(b, 1), env);
        CleanupFullCovered(c2, maxElements, dedup, ChildBox(b, 2), env);
        CleanupFullCovered(c3, maxElements, dedup, ChildBox(b, 3), env);
      }
  }
}
