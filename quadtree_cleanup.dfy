// The two clean-up passes shared by the point and the AABB quadtrees:
// `cleanup`, which turns a branch whose four children are empty leaves into
// an empty leaf, and `cleanupFull`, which also consolidates a branch whose
// four children are leaves holding few enough element nodes.
//
// Both walk the tree top-down from the root with an explicit stack: a node
// is examined once, its branch children are pushed, and a node that
// collapses had no branch children. The subtrees handled are disjoint, so
// the walk is modelled as one recursive pass over the tree value; the pass
// does not look at a node again after its children changed, which is why a
// single pass is not idempotent (see `CleanupNotIdempotent`).

module QuadtreeCleanup {
  import opened JavaMath
  import opened QuadtreeNodes

  predicate EmptyLeaf(t: QNode)
  {
    t.Leaf? && t.elements == []
  }

  predicate AllEmpty(c0: QNode, c1: QNode, c2: QNode, c3: QNode)
  {
    EmptyLeaf(c0) && EmptyLeaf(c1) && EmptyLeaf(c2) && EmptyLeaf(c3)
  }

  /**
   * One `cleanup` pass: the new tree and whether any branch collapsed
   * (the source's `changed`).
   */
  function CleanupPass(t: QNode): (r: (QNode, bool))
  {
    match t
    case Leaf(_) => (t, false)
    case Branch(c0, c1, c2, c3) =>
      if AllEmpty(c0, c1, c2, c3) then (Leaf([]), true)
      else
        var r0 := CleanupPass(c0);
        var r1 := CleanupPass(c1);
        var r2 := CleanupPass(c2);
        var r3 := CleanupPass(c3);
        (Branch(r0.0, r1.0, r2.0, r3.0), r0.1 || r1.1 || r2.1 || r3.1)
  }

  /**
   * `cleanup` reports a change exactly when the tree is different, and every
   * change makes the tree strictly smaller (four nodes freed per collapse).
   */
  lemma {:induction false} CleanupChanged(t: QNode)
    ensures var r := CleanupPass(t);
      (r.1 <==> r.0 != t) && (r.1 ==> Size(r.0) < Size(t)) && (!r.1 ==> Size(r.0) == Size(t))
  {
    match t
    case Leaf(_) =>
    case Branch(c0, c1, c2, c3) =>
      if !AllEmpty(c0, c1, c2, c3) {
        CleanupChanged(c0);
        CleanupChanged(c1);
        CleanupChanged(c2);
        CleanupChanged(c3);
      }
  }

  /** `cleanup` frees only empty leaves: every element node stays. */
  lemma {:induction false} CleanupKeeps(t: QNode)
    ensures var t' := CleanupPass(t).0;
      Elements(t') == Elements(t) && Members(t') == Members(t)
  {
    match t
    case Leaf(_) =>
    case Branch(c0, c1, c2, c3) =>
      if AllEmpty(c0, c1, c2, c3) {
        assert Members(c0) == {} && Members(c1) == {} && Members(c2) == {} && Members(c3) == {};
      } else {
        CleanupKeeps(c0);
        CleanupKeeps(c1);
        CleanupKeeps(c2);
        CleanupKeeps(c3);
      }
  }

  /** `cleanup` keeps every element under the quadrants its rectangle reaches, and leaves free of repeats. */
  lemma {:induction false} CleanupPlaced(t: QNode, b: Box, env: Env)
    ensures var t' := CleanupPass(t).0;
      (Placed(t, b, env) ==> Placed(t', b, env)) && (LeafDistinct(t) ==> LeafDistinct(t'))
  {
    match t
    case Leaf(_) =>
    case Branch(c0, c1, c2, c3) =>
      if !AllEmpty(c0, c1, c2, c3) {
        CleanupKeeps(c0);
        CleanupKeeps(c1);
        CleanupKeeps(c2);
        CleanupKeeps(c3);
        CleanupPlaced(c0, ChildBox(b, 0), env);
        CleanupPlaced(c1, ChildBox(b, 1), env);
        CleanupPlaced(c2, ChildBox(b, 2), env);
        CleanupPlaced(c3, ChildBox(b, 3), env);
      }
  }

  /**
   * A tree on which one pass of `cleanup` leaves a branch whose children are
   * all empty leaves: the root is examined before its child collapses, so a
   * second pass is needed to collapse the root too.
   */
  lemma CleanupNotIdempotent()
    ensures var e := Leaf([]);
      var t := Branch(Branch(e, e, e, e), e, e, e);
      CleanupPass(t).0 == Branch(e, e, e, e) && CleanupPass(CleanupPass(t).0).0 == e
  {
  }

  // ---------------------------------------------------------------------------
  // cleanupFull
  // ---------------------------------------------------------------------------

  function Reverse(s: seq<int>): (r: seq<int>)
    ensures |r| == |s| && forall i :: 0 <= i < |s| ==> r[i] == s[|s| - 1 - i]
  {
    if s == [] then [] else Reverse(s[1..]) + [s[0]]
  }

  lemma {:induction false} ReverseContents(s: seq<int>)
    ensures multiset(Reverse(s)) == multiset(s)
  {
    if s != [] {
      ReverseContents(s[1..]);
      assert s == [s[0]] + s[1..];
    }
  }

  /** The first occurrence of each element of `s`, in order. */
  function Dedup(s: seq<int>): (r: seq<int>)
  {
    if s == [] then []
    else
      var rest := Dedup(s[..|s| - 1]);
      if s[|s| - 1] in rest then rest else rest + [s[|s| - 1]]
  }

  /** `Dedup` keeps exactly the elements of `s`, each once. */
  lemma {:induction false} DedupSpec(s: seq<int>)
    ensures Distinct(Dedup(s))
    ensures forall x :: x in Dedup(s) <==> x in s
  {
    if s != [] {
      var p := s[..|s| - 1];
      DedupSpec(p);
      assert s == p + [s[|s| - 1]];
      var rest := Dedup(p);
      if s[|s| - 1] !in rest {
        var r := rest + [s[|s| - 1]];
        forall i, j | 0 <= i < j < |r| ensures r[i] != r[j] {
          assert r[i] == rest[i];
        }
      }
    }
  }

  /** Reversing keeps a list free of repeats. */
  lemma ReverseDistinct(s: seq<int>)
    requires Distinct(s)
    ensures Distinct(Reverse(s))
  {
    var r := Reverse(s);
    forall i, j | 0 <= i < j < |r| ensures r[i] != r[j] {
      assert r[i] == s[|s| - 1 - i] && r[j] == s[|s| - 1 - j];
    }
  }

  predicate AllLeaves(c0: QNode, c1: QNode, c2: QNode, c3: QNode)
  {
    c0.Leaf? && c1.Leaf? && c2.Leaf? && c3.Leaf?
  }

  /**
   * The element nodes the consolidation copies: each child's list from its
   * head, children in order 0 to 3; with `dedup`, only the first copy of
   * each element.
   */
  function Gathered(c0: QNode, c1: QNode, c2: QNode, c3: QNode, dedup: bool): seq<int>
    requires AllLeaves(c0, c1, c2, c3)
  {
    var all := c0.elements + c1.elements + c2.elements + c3.elements;
    if dedup then Dedup(all) else all
  }

  /**
   * One `cleanupFull` pass. A branch whose children are all empty leaves
   * becomes an empty leaf; a branch whose children are all leaves holding at
   * most `maxElements / 2` element nodes together becomes one leaf whose list
   * is the gathered elements reversed (the transfer prepends each one);
   * otherwise the pass goes on into the branch children. With `dedup` false
   * this is the pass as written; with `dedup` true an element listed by
   * several children is listed once in the merged leaf.
   */
  function CleanupFullPass(t: QNode, maxElements: int, dedup: bool): (r: (QNode, bool))
  {
    match t
    case Leaf(_) => (t, false)
    case Branch(c0, c1, c2, c3) =>
      if AllEmpty(c0, c1, c2, c3) then (Leaf([]), true)
      else if Merges(c0, c1, c2, c3, maxElements) then (Leaf(Reverse(Gathered(c0, c1, c2, c3, dedup))), true)
      else
        var r0 := CleanupFullPass(c0, maxElements, dedup);
        var r1 := CleanupFullPass(c1, maxElements, dedup);
        var r2 := CleanupFullPass(c2, maxElements, dedup);
        var r3 := CleanupFullPass(c3, maxElements, dedup);
        (Branch(r0.0, r1.0, r2.0, r3.0), r0.1 || r1.1 || r2.1 || r3.1)
  }

  /** `cleanupFull` reports a change exactly when the tree is different, and every change shrinks it. */
  lemma {:induction false} CleanupFullChanged(t: QNode, maxElements: int, dedup: bool)
    ensures var r := CleanupFullPass(t, maxElements, dedup);
      (r.1 <==> r.0 != t) && (r.1 ==> Size(r.0) < Size(t)) && (!r.1 ==> Size(r.0) == Size(t))
  {
    match t
    case Leaf(_) =>
    case Branch(c0, c1, c2, c3) =>
      if !AllEmpty(c0, c1, c2, c3) && !Merges(c0, c1, c2, c3, maxElements) {
        CleanupFullChanged(c0, maxElements, dedup);
        CleanupFullChanged(c1, maxElements, dedup);
        CleanupFullChanged(c2, maxElements, dedup);
        CleanupFullChanged(c3, maxElements, dedup);
      }
  }

  /** The element nodes of four leaves are those of their lists joined in order. */
  lemma JoinedContents(c0: QNode, c1: QNode, c2: QNode, c3: QNode)
    requires AllLeaves(c0, c1, c2, c3)
    ensures var all := c0.elements + c1.elements + c2.elements + c3.elements;
      Elements(Branch(c0, c1, c2, c3)) == multiset(all)
      && forall x :: x in Members(Branch(c0, c1, c2, c3)) <==> x in multiset(all)
  {
  }

  /** A leaf holding the elements of `s` has the members of `t` when the two agree element by element. */
  lemma LeafMembers(s: seq<int>, t: QNode)
    requires forall x :: x in s <==> x in Members(t)
    ensures Members(Leaf(s)) == Members(t)
  {
    forall x ensures x in Members(Leaf(s)) <==> x in Members(t) {
      assert x in Members(Leaf(s)) <==> x in s;
    }
  }

  /** The merged list holds exactly the children's elements; as written, every element node is kept. */
  lemma MergedContents(c0: QNode, c1: QNode, c2: QNode, c3: QNode, dedup: bool)
    requires AllLeaves(c0, c1, c2, c3)
    ensures var m := Leaf(Reverse(Gathered(c0, c1, c2, c3, dedup)));
      Members(m) == Members(Branch(c0, c1, c2, c3))
      && (!dedup ==> Elements(m) == Elements(Branch(c0, c1, c2, c3)))
  {
    var all := c0.elements + c1.elements + c2.elements + c3.elements;
    var g := Gathered(c0, c1, c2, c3, dedup);
    JoinedContents(c0, c1, c2, c3);
    ReverseContents(g);
    if dedup {
      DedupSpec(all);
      assert forall x :: x in g <==> x in multiset(all);
    } else {
      assert g == all;
    }
    assert forall x :: x in Reverse(g) <==> x in multiset(g);
    LeafMembers(Reverse(g), Branch(c0, c1, c2, c3));
  }

  /** The deduplicated merged list has no repeats. */
  lemma MergedDistinct(c0: QNode, c1: QNode, c2: QNode, c3: QNode)
    requires AllLeaves(c0, c1, c2, c3)
    ensures LeafDistinct(Leaf(Reverse(Gathered(c0, c1, c2, c3, true))))
  {
    DedupSpec(c0.elements + c1.elements + c2.elements + c3.elements);
    ReverseDistinct(Gathered(c0, c1, c2, c3, true));
  }

  function Merges(c0: QNode, c1: QNode, c2: QNode, c3: QNode, maxElements: int): bool
  {
    AllLeaves(c0, c1, c2, c3)
    && |c0.elements| + |c1.elements| + |c2.elements| + |c3.elements| <= Div(maxElements, 2)
  }

  /** `cleanupFull` keeps every element in the tree; as written it also keeps every element node. */
  lemma {:induction false} CleanupFullMembers(t: QNode, maxElements: int, dedup: bool)
    ensures var t' := CleanupFullPass(t, maxElements, dedup).0;
      Members(t') == Members(t) && (!dedup ==> Elements(t') == Elements(t))
  {
    match t
    case Leaf(_) =>
    case Branch(c0, c1, c2, c3) =>
      if AllEmpty(c0, c1, c2, c3) {
        assert Members(c0) == {} && Members(c1) == {} && Members(c2) == {} && Members(c3) == {};
      } else if Merges(c0, c1, c2, c3, maxElements) {
        MergedContents(c0, c1, c2, c3, dedup);
      } else {
        CleanupFullMembers(c0, maxElements, dedup);
        CleanupFullMembers(c1, maxElements, dedup);
        CleanupFullMembers(c2, maxElements, dedup);
        CleanupFullMembers(c3, maxElements, dedup);
      }
  }

  /** `cleanupFull` keeps every element under the quadrants its rectangle reaches. */
  lemma {:induction false} CleanupFullPlaced(t: QNode, maxElements: int, dedup: bool, b: Box, env: Env)
    requires Placed(t, b, env)
    ensures Placed(CleanupFullPass(t, maxElements, dedup).0, b, env)
  {
    match t
    case Leaf(_) =>
    case Branch(c0, c1, c2, c3) =>
      if !AllEmpty(c0, c1, c2, c3) && !Merges(c0, c1, c2, c3, maxElements) {
        CleanupFullMembers(c0, maxElements, dedup);
        CleanupFullMembers(c1, maxElements, dedup);
        CleanupFullMembers(c2, maxElements, dedup);
        CleanupFullMembers(c3, maxElements, dedup);
        CleanupFullPlaced(c0, maxElements, dedup, ChildBox(b, 0), env);
        CleanupFullPlaced(c1, maxElements, dedup, ChildBox(b, 1), env);
        CleanupFullPlaced(c2, maxElements, dedup, ChildBox(b, 2), env);
        CleanupFullPlaced(c3, maxElements, dedup, ChildBox(b, 3), env);
      }
  }

  /** With the merged list deduplicated, `cleanupFull` keeps leaves free of repeats. */
  lemma {:induction false} CleanupFullDistinct(t: QNode, maxElements: int)
    requires LeafDistinct(t)
    ensures LeafDistinct(CleanupFullPass(t, maxElements, true).0)
  {
    match t
    case Leaf(_) =>
    case Branch(c0, c1, c2, c3) =>
      if AllEmpty(c0, c1, c2, c3) {
      } else if Merges(c0, c1, c2, c3, maxElements) {
        MergedDistinct(c0, c1, c2, c3);
      } else {
        CleanupFullDistinct(c0, maxElements);
        CleanupFullDistinct(c1, maxElements);
        CleanupFullDistinct(c2, maxElements);
        CleanupFullDistinct(c3, maxElements);
      }
  }

  /** An element on the centre of the root reaches all four quadrants, and each child may list it. */
  lemma StraddlingPlaced()
    ensures var env := Env(map[0 := (50, 50)], 5, 5, 8, 8);
      Placed(Branch(Leaf([0]), Leaf([0]), Leaf([0]), Leaf([0])), Box(50, 50, 50, 50), env)
  {
    var env := Env(map[0 := (50, 50)], 5, 5, 8, 8);
    var r := ElementRect(env, 0);
    assert r == Rect(45, 45, 55, 55);
    assert Members(Leaf([0])) == {0};
  }

  /**
   * As written, consolidating the four leaves of an element that straddles
   * the centre of the root puts four copies of it into one leaf; `remove`
   * then unlinks only the first, and the tree still lists the element after
   * it was erased.
   */
  lemma CleanupFullDuplicates()
    ensures var env := Env(map[0 := (50, 50)], 5, 5, 8, 8);
      var b := Box(50, 50, 50, 50);
      var t := Branch(Leaf([0]), Leaf([0]), Leaf([0]), Leaf([0]));
      var t' := CleanupFullPass(t, 8, false).0;
      Placed(t, b, env) && LeafDistinct(t)
      && t' == Leaf([0, 0, 0, 0]) && !LeafDistinct(t')
      && 0 in Members(RemoveRect(t', b, ElementRect(env, 0), 0))
  {
    StraddlingPlaced();
    var env := Env(map[0 := (50, 50)], 5, 5, 8, 8);
    assert Div(8, 2) == 4;
    assert Gathered(Leaf([0]), Leaf([0]), Leaf([0]), Leaf([0]), false) == [0, 0, 0, 0];
    assert Reverse([0, 0, 0, 0]) == [0, 0, 0, 0];
    assert RemoveFirst([0, 0, 0, 0], 0) == [0, 0, 0];
    assert 0 in Members(Leaf([0, 0, 0]));
  }

  /**
   * With the merged list deduplicated, `remove` after `cleanupFull` takes
   * the element out of the tree entirely.
   */
  lemma CleanupFullThenRemove(t: QNode, maxElements: int, b: Box, e: int, env: Env)
    requires Placed(t, b, env) && LeafDistinct(t)
    ensures var t' := CleanupFullPass(t, maxElements, true).0;
      Members(RemoveRect(t', b, ElementRect(env, e), e)) == Members(t) - {e}
  {
    CleanupFullMembers(t, maxElements, true);
    CleanupFullPlaced(t, maxElements, true, b, env);
    CleanupFullDistinct(t, maxElements);
    RemoveRectMembers(CleanupFullPass(t, maxElements, true).0, b, e, env);
  }
}
