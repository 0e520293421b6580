// What the two quadtrees' `query` methods return, stated over the leaves
// `find_leaves` reaches, and why nothing is missed: a point query lists every
// element at a point inside the query rectangle, an AABB query every element
// whose rectangle meets it.

module QuadtreeQuery {
  import opened QuadtreeNodes
  import opened QuadtreeCleanup
  import opened QuadtreeCovered

  /** The elements of a leaf's list other than `omit`, in list order. */
  function Kept(es: seq<int>, omit: int): seq<int>
  {
    if es == [] then []
    else Kept(es[..|es| - 1], omit) + (if es[|es| - 1] != omit then [es[|es| - 1]] else [])
  }

  lemma {:induction false} KeptSpec(es: seq<int>, omit: int)
    ensures forall x :: x in Kept(es, omit) <==> x in es && x != omit
  {
    if es != [] {
      KeptSpec(es[..|es| - 1], omit);
      assert es == es[..|es| - 1] + [es[|es| - 1]];
    }
  }

  /** Walking one more element of a leaf's list. */
  lemma KeptNext(es: seq<int>, k: int, omit: int)
    requires 0 <= k < |es|
    ensures Kept(es[..k + 1], omit) == Kept(es[..k], omit) + (if es[k] != omit then [es[k]] else [])
  {
    assert es[..k + 1][..k] == es[..k];
  }

  function LeafElements(f: Frame): seq<int>
  {
    if f.node.Leaf? then f.node.elements else []
  }

  /** The walk over the leaves found: every element of every leaf, in order, except `omit`. */
  function Hits(leaves: seq<Frame>, omit: int): seq<int>
  {
    if leaves == [] then []
    else Hits(leaves[..|leaves| - 1], omit) + Kept(LeafElements(leaves[|leaves| - 1]), omit)
  }

  /** Walking one more leaf. */
  lemma HitsNext(leaves: seq<Frame>, j: int, omit: int)
    requires 0 <= j < |leaves|
    ensures Hits(leaves[..j + 1], omit) == Hits(leaves[..j], omit) + Kept(LeafElements(leaves[j]), omit)
  {
    assert leaves[..j + 1][..j] == leaves[..j];
  }

  /** An index is walked over exactly when some leaf found lists it and it is not `omit`. */
  lemma {:induction false} HitsSpec(leaves: seq<Frame>, omit: int, x: int)
    ensures x in Hits(leaves, omit) <==> x != omit && exists f :: f in leaves && x in LeafElements(f)
  {
    if leaves != [] {
      var p := leaves[..|leaves| - 1];
      var last := leaves[|leaves| - 1];
      HitsSpec(p, omit, x);
      KeptSpec(LeafElements(last), omit);
      assert leaves == p + [last];
      if x != omit && x in LeafElements(last) {
        assert last in leaves;
      }
    }
  }

  /** Membership in four sequences joined. */
  lemma InFour(f: Frame, a: seq<Frame>, b: seq<Frame>, c: seq<Frame>, d: seq<Frame>)
    ensures f in a + b + c + d <==> f in a || f in b || f in c || f in d
  {
  }

  /** The leaves of branch `t` that `find_leaves` reaches through child `i`. */
  function Piece(t: QNode, path: seq<int>, b: Box, depth: int, r: Rect, i: int): seq<Frame>
    requires t.Branch? && 0 <= i < 4
  {
    if Selects(b, r, i) then FindLeaves(Child(t, i), path + [i], ChildBox(b, i), depth + 1, r) else []
  }

  /** A leaf found below a branch is found through one of its children. */
  lemma FoundThroughChild(t: QNode, path: seq<int>, b: Box, depth: int, r: Rect, f: Frame) returns (i: int)
    requires t.Branch? && f in FindLeaves(t, path, b, depth, r)
    ensures 0 <= i < 4 && f in Piece(t, path, b, depth, r, i)
  {
    InFour(f, Piece(t, path, b, depth, r, 3), Piece(t, path, b, depth, r, 2),
           Piece(t, path, b, depth, r, 1), Piece(t, path, b, depth, r, 0));
    i :| i in {3, 2, 1, 0} && f in Piece(t, path, b, depth, r, i);
  }

  /** Every leaf `find_leaves` reports is a leaf of the tree, so every element it lists is held by the tree. */
  lemma {:induction false} FindLeavesMembers(t: QNode, path: seq<int>, b: Box, depth: int, r: Rect, f: Frame, x: int)
    requires f in FindLeaves(t, path, b, depth, r) && x in LeafElements(f)
    ensures f.node.Leaf? && x in Members(t)
  {
    if t.Branch? {
      var i := FoundThroughChild(t, path, b, depth, r, f);
      FindLeavesMembers(Child(t, i), path + [i], ChildBox(b, i), depth + 1, r, f, x);
      ChildMembers(t, i);
    }
  }

  lemma ChildMembers(t: QNode, i: int)
    requires t.Branch? && 0 <= i < 4
    ensures Members(Child(t, i)) <= Members(t)
  {
  }

  /**
   * The point query's result, as element indices: every element listed by a
   * leaf the rectangle reaches, except `omit`, with no test of its position.
   */
  function PointHits(t: QNode, b: Box, q: Rect, omit: int): seq<int>
  {
    Hits(FindLeaves(t, [], b, 0, q), omit)
  }

  /**
   * A point query misses nothing: every placed element at a point inside the
   * query rectangle, other than `omit`, is walked over; and everything walked
   * over is held by the tree.
   */
  lemma PointQueryComplete(t: QNode, b: Box, env: Env, q: Rect, omit: int, e: int)
    requires env.ex == 0 && env.ey == 0 && Placed(t, b, env)
    ensures e in PointHits(t, b, q, omit) ==> e in Members(t) && e != omit
    ensures var p := ElementRect(env, e);
      e in Members(t) && e != omit && q.lft <= p.lft <= q.rgt && q.top <= p.top <= q.btm
      ==> e in PointHits(t, b, q, omit)
  {
    var leaves := FindLeaves(t, [], b, 0, q);
    HitsSpec(leaves, omit, e);
    if e in PointHits(t, b, q, omit) {
      var f :| f in leaves && e in LeafElements(f);
      FindLeavesMembers(t, [], b, 0, q, f, e);
    }
    var p := ElementRect(env, e);
    if e in Members(t) && e != omit && q.lft <= p.lft <= q.rgt && q.top <= p.top <= q.btm {
      PlacedFindLeaf(t, [], b, 0, e, env);
      FindLeafListed(t, [], b, 0, q, p.lft, p.top);
      assert e in LeafElements(FindLeaf(t, [], b, 0, p.lft, p.top));
    }
  }

  // ---------------------------------------------------------------------------
  // AABB query
  // ---------------------------------------------------------------------------

  /** `intersect(l1, t1, r1, b1, l2, t2, r2, b2)`, with the query rectangle first; the edges count. */
  predicate Intersect(q: Rect, r: Rect)
  {
    r.lft <= q.rgt && r.rgt >= q.lft && r.top <= q.btm && r.btm >= q.top
  }

  predicate WellFormed(r: Rect)
  {
    r.lft <= r.rgt && r.top <= r.btm
  }

  /** The walked-over elements whose rectangle meets the query rectangle, in order. */
  function Matching(hits: seq<int>, env: Env, q: Rect): seq<int>
  {
    if hits == [] then []
    else
      var x := hits[|hits| - 1];
      Matching(hits[..|hits| - 1], env, q) + (if Intersect(q, ElementRect(env, x)) then [x] else [])
  }

  lemma {:induction false} MatchingSpec(hits: seq<int>, env: Env, q: Rect)
    ensures forall x :: x in Matching(hits, env, q) <==> x in hits && Intersect(q, ElementRect(env, x))
  {
    if hits != [] {
      MatchingSpec(hits[..|hits| - 1], env, q);
      assert hits == hits[..|hits| - 1] + [hits[|hits| - 1]];
    }
  }

  /**
   * The AABB query's result: the walked-over elements whose rectangle meets
   * the query rectangle, each reported the first time it is met.
   */
  function AABBHits(t: QNode, b: Box, env: Env, q: Rect, omit: int): seq<int>
  {
    Dedup(Matching(Hits(FindLeaves(t, [], b, 0, q), omit), env, q))
  }

  /** Two well-formed rectangles that meet are both selected by some quadrant. */
  lemma CommonQuadrant(b: Box, q: Rect, r: Rect) returns (i: int)
    requires WellFormed(q) && WellFormed(r) && Intersect(q, r)
    ensures 0 <= i < 4 && Selects(b, q, i) && Selects(b, r, i)
  {
    var x := if q.lft <= r.lft then r.lft else q.lft;
    var y := if q.top <= r.top then r.top else q.top;
    i := Quadrant(b, x, y);
    SelectsQuadrant(b, q, x, y);
    SelectsQuadrant(b, r, x, y);
  }

  /** Under coverage, an element is held by every child its rectangle selects, and the child is covered. */
  lemma CoveredChild(t: QNode, b: Box, env: Env, i: int, e: int)
    requires t.Branch? && 0 <= i < 4 && Covered(t, b, env) && e in Members(t) && Selects(b, ElementRect(env, e), i)
    ensures e in Members(Child(t, i)) && Covered(Child(t, i), ChildBox(b, i), env)
  {
  }

  /** Under coverage, an element whose rectangle meets the query rectangle is listed by a leaf found. */
  lemma {:induction false} CoveredListed(t: QNode, path: seq<int>, b: Box, depth: int, env: Env, q: Rect, e: int)
      returns (f: Frame)
    requires Covered(t, b, env) && e in Members(t)
    requires WellFormed(q) && WellFormed(ElementRect(env, e)) && Intersect(q, ElementRect(env, e))
    ensures f in FindLeaves(t, path, b, depth, q) && e in LeafElements(f)
  {
    match t
    case Leaf(_) =>
      f := Frame(t, path, b, depth);
    case Branch(c0, c1, c2, c3) =>
      var i := CommonQuadrant(b, q, ElementRect(env, e));
      var c := Child(t, i);
      CoveredChild(t, b, env, i, e);
      f := CoveredListed(c, path + [i], ChildBox(b, i), depth + 1, env, q, e);
      InFour(f, Piece(t, path, b, depth, q, 3), Piece(t, path, b, depth, q, 2),
             Piece(t, path, b, depth, q, 1), Piece(t, path, b, depth, q, 0));
  }

  /**
   * An AABB query misses nothing and reports nothing twice: every element
   * held by a covered tree whose rectangle meets a well-formed query
   * rectangle, other than `omit`, is reported; everything reported is held
   * by the tree, is not `omit` and meets the query rectangle.
   */
  lemma AABBQueryComplete(t: QNode, b: Box, env: Env, q: Rect, omit: int, e: int)
    requires Covered(t, b, env) && env.ex >= 0 && env.ey >= 0
    ensures Distinct(AABBHits(t, b, env, q, omit))
    ensures e in AABBHits(t, b, env, q, omit) ==> e in Members(t) && e != omit && Intersect(q, ElementRect(env, e))
    ensures e in Members(t) && e != omit && WellFormed(q) && Intersect(q, ElementRect(env, e))
      ==> e in AABBHits(t, b, env, q, omit)
  {
    var leaves := FindLeaves(t, [], b, 0, q);
    var hits := Hits(leaves, omit);
    DedupSpec(Matching(hits, env, q));
    MatchingSpec(hits, env, q);
    HitsSpec(leaves, omit, e);
    if e in hits {
      var f :| f in leaves && e in LeafElements(f);
      FindLeavesMembers(t, [], b, 0, q, f, e);
    }
    if e in Members(t) && e != omit && WellFormed(q) && Intersect(q, ElementRect(env, e)) {
      var f := CoveredListed(t, [], b, 0, env, q, e);
    }
  }
}
