// `QuadtreeAABBStatic`: a quadtree of equally sized rectangles. Each element
// is a record of the `elts` IntList (centre x, centre y, id) and covers the
// rectangle of the tree's element half-size around its centre; it is listed by
// every leaf that rectangle reaches. The node tree, which the source keeps in
// two more IntLists, is held here as a `QNode` value (see QuadtreeNodes).

module QuadtreeAABBTree {
  import opened JavaMath
  import opened QuadtreeIntList
  import opened QuadtreeNodes
  import opened QuadtreeCleanup
  import opened QuadtreeCovered
  import opened QuadtreeQuery
  import opened QuadtreeElements

  /**
   * The tree lists only elements in use, no leaf lists one twice, and each
   * sits only under quadrants its rectangle reaches; with a non-negative
   * half-size it lists every element in use, under every quadrant its
   * rectangle reaches.
   */
  ghost predicate Holds(root: QNode, b: Box, live: set<int>, env: Env)
  {
    Members(root) <= live && LeafDistinct(root) && Placed(root, b, env)
    && (env.ex >= 0 && env.ey >= 0 ==> Members(root) == live && Covered(root, b, env))
  }

  /** The invariant depends only on the rectangles of the elements in use. */
  lemma HoldsFrame(root: QNode, b: Box, live: set<int>, env: Env, env': Env)
    requires Holds(root, b, live, env) && env.ex == env'.ex && env.ey == env'.ey
    requires forall m :: m in live ==> ElementRect(env, m) == ElementRect(env', m)
    ensures Holds(root, b, live, env')
  {
    PlacedFrame(root, b, env, env');
    if env.ex >= 0 && env.ey >= 0 {
      CoveredFrame(root, b, env, env');
    }
  }

  /** Inserting a new element into every leaf its rectangle reaches keeps the invariant, with the element in use. */
  lemma InsertHolds(root: QNode, b: Box, live: set<int>, env: Env, e: int)
    requires Holds(root, b, live, env) && e !in live
    ensures Holds(NodeInsert(root, b, 0, e, env), b, live + {e}, env)
  {
    NodeInsertMembers(root, b, 0, e, env);
    NodeInsertDistinct(root, b, 0, e, env);
    NodeInsertPlaced(root, b, 0, e, env);
    if env.ex >= 0 && env.ey >= 0 {
      NodeInsertCovered(root, b, 0, e, env);
    }
  }

  /** Unlinking an element from every leaf its rectangle reaches takes it out of the tree and keeps the invariant. */
  lemma RemoveHolds(root: QNode, b: Box, live: set<int>, env: Env, e: int)
    requires Holds(root, b, live, env)
    ensures var t := RemoveRect(root, b, ElementRect(env, e), e);
      Holds(t, b, live - {e}, env) && e !in Members(t)
  {
    RemoveRectMembers(root, b, e, env);
    if env.ex >= 0 && env.ey >= 0 {
      RemoveRectCovered(root, b, e, env);
    }
  }

  /** `cleanup` keeps the invariant. */
  lemma CleanupHolds(root: QNode, b: Box, live: set<int>, env: Env)
    requires Holds(root, b, live, env)
    ensures Holds(CleanupPass(root).0, b, live, env)
  {
    CleanupKeeps(root);
    CleanupPlaced(root, b, env);
    if env.ex >= 0 && env.ey >= 0 {
      CleanupCovered(root, b, env);
    }
  }

  /** `cleanupFull`, with the merged list deduplicated, keeps the invariant. */
  lemma CleanupFullHolds(root: QNode, maxElements: int, b: Box, live: set<int>, env: Env)
    requires Holds(root, b, live, env)
    ensures Holds(CleanupFullPass(root, maxElements, true).0, b, live, env)
  {
    CleanupFullMembers(root, maxElements, true);
    CleanupFullPlaced(root, maxElements, true, b, env);
    CleanupFullDistinct(root, maxElements);
    if env.ex >= 0 && env.ey >= 0 {
      CleanupFullCovered(root, maxElements, true, b, env);
    }
  }

  /**
   * An AABB query over a tree holding `live`: every element a leaf found
   * lists is in use; the result lists each element once, and only elements
   * in use other than `omit` whose rectangle meets the query rectangle; with
   * a non-negative half-size and a well-formed query rectangle it lists every
   * such element.
   */
  lemma QueryHolds(root: QNode, b: Box, live: set<int>, env: Env, q: Rect, omit: int)
    requires Holds(root, b, live, env)
    ensures forall f, x :: f in FindLeaves(root, [], b, 0, q) && x in LeafElements(f) ==> x in live
    ensures Distinct(AABBHits(root, b, env, q, omit))
    ensures forall x :: x in AABBHits(root, b, env, q, omit) ==> x in live && x != omit && Intersect(q, ElementRect(env, x))
    ensures env.ex >= 0 && env.ey >= 0 && WellFormed(q) ==>
      forall e :: e in live && e != omit && Intersect(q, ElementRect(env, e)) ==> e in AABBHits(root, b, env, q, omit)
  {
    var leaves := FindLeaves(root, [], b, 0, q);
    var hits := Hits(leaves, omit);
    forall f, x | f in leaves && x in LeafElements(f) ensures x in live {
      FindLeavesMembers(root, [], b, 0, q, f, x);
    }
    DedupSpec(Matching(hits, env, q));
    MatchingSpec(hits, env, q);
    forall x | x in AABBHits(root, b, env, q, omit) ensures x in live && x != omit {
      HitsSpec(leaves, omit, x);
    }
    if env.ex >= 0 && env.ey >= 0 && WellFormed(q) {
      forall e | e in live && e != omit && Intersect(q, ElementRect(env, e)) ensures e in AABBHits(root, b, env, q, omit) {
        AABBQueryComplete(root, b, env, q, omit, e);
      }
    }
  }

  /** The query's result after walking over one more element. */
  lemma MatchingDedupNext(s: seq<int>, x: int, env: Env, q: Rect)
    ensures var d := Dedup(Matching(s, env, q));
      Dedup(Matching(s + [x], env, q))
      == if Intersect(q, ElementRect(env, x)) && x !in d then d + [x] else d
  {
    assert (s + [x])[..|s|] == s;
    if Intersect(q, ElementRect(env, x)) {
      var m := Matching(s, env, q);
      assert Matching(s + [x], env, q) == m + [x];
      assert (m + [x])[..|m + [x]| - 1] == m;
      assert Dedup(m + [x]) == if x in Dedup(m) then Dedup(m) else Dedup(m) + [x];
    } else {
      assert Matching(s + [x], env, q) == Matching(s, env, q);
    }
  }

  class QuadtreeAABBStatic {
    /** The element records: field 0 `elt_idx_mx`, field 1 `elt_idx_my`, field 2 `elt_idx_id`. */
    const elts: IntList
    /** The node tree (the source's `nodes` and `enodes`). */
    var root: QNode
    /** `root_mx`, `root_my`, `root_sx`, `root_sy`. */
    const rootBox: Box
    /** `element_sx`, `element_sy`: the half-size of every element's rectangle. */
    const elementSx: int
    const elementSy: int
    const maxElements: int
    const maxDepth: int
    /** The query's marks, one per element index, all clear between queries. */
    var temp: array<bool>
    var tempSize: int

    /** The element indices in use. */
    ghost function Live(): set<int>
      reads elts
    {
      InUse(elts)
    }

    function TreeEnv(): Env
      reads elts, elts.data
      requires Readable(elts)
    {
      Env(Positions(elts), elementSx, elementSy, maxElements, maxDepth)
    }

    /** The element list is sound, the tree keeps `Holds`, and the query's marks are clear. */
    ghost predicate Valid()
      reads this, elts, elts.data, temp
    {
      Sound(elts) && Holds(root, rootBox, Live(), TreeEnv())
      && temp.Length == tempSize && forall i :: 0 <= i < temp.Length ==> !temp[i]
    }

    /**
     * `QuadtreeAABBStatic(width, height, element_width, element_height,
     * start_max_elements, start_max_depth)`: an empty tree centred on
     * (width / 2, height / 2), elements of half the given size.
     */
    constructor (width: int, height: int, elementWidth: int, elementHeight: int,
                 startMaxElements: int, startMaxDepth: int)
      ensures Valid() && fresh(elts) && Live() == {} && root == Leaf([])
      ensures rootBox == Box(Div(width, 2), Div(height, 2), Div(width, 2), Div(height, 2))
      ensures elementSx == Div(elementWidth, 2) && elementSy == Div(elementHeight, 2)
      ensures maxElements == startMaxElements && maxDepth == startMaxDepth
    {
      elts := new IntList(3, 128);
      root := Leaf([]);
      rootBox := Box(Div(width, 2), Div(height, 2), Div(width, 2), Div(height, 2));
      elementSx := Div(elementWidth, 2);
      elementSy := Div(elementHeight, 2);
      maxElements := startMaxElements;
      maxDepth := startMaxDepth;
      temp := new bool[0];
      tempSize := 0;
      new;
      assert Live() == {};
    }

    /**
     * `insert(id, x, y)`: a new element index (a reused one when some were
     * removed) holding the centre and id, listed by every leaf its rectangle
     * reaches; every other element keeps its fields.
     */
    method Insert(id: int, x: int, y: int) returns (e: int)
      requires Valid()
      modifies this, elts, elts.data
      ensures Valid()
      ensures e !in old(Live()) && Live() == old(Live()) + {e}
      ensures elts.Get(e, 0) == x && elts.Get(e, 1) == y && elts.Get(e, 2) == id
      ensures forall m, k :: m in old(Live()) && 0 <= k < 3 ==> elts.Get(m, k) == old(elts.Get(m, k))
    {
      ghost var live0 := Live();
      ghost var env0 := TreeEnv();
      e := NewRecord(elts, id, x, y);
      var env := TreeEnv();
      forall m | m in live0 ensures ElementRect(env0, m) == ElementRect(env, m) {
        assert env.pos[m] == (elts.Get(m, 0), elts.Get(m, 1));
      }
      HoldsFrame(root, rootBox, live0, env0, env);
      InsertHolds(root, rootBox, live0, env, e);
      root := NodeInsert(root, rootBox, 0, e, env);
      assert TreeEnv() == env && Live() == live0 + {e};
    }

    /**
     * `remove(elementIdx)`: the element node is unlinked from every leaf the
     * element's rectangle reaches and the record is erased; the tree no
     * longer lists the element, and every other element keeps its fields.
     */
    method Remove(e: int)
      requires Valid() && e in Live()
      modifies this, elts, elts.data
      ensures Valid()
      ensures Live() == old(Live()) - {e} && e !in Members(root)
      ensures forall m, k :: m in Live() && 0 <= k < 3 ==> elts.Get(m, k) == old(elts.Get(m, k))
    {
      ghost var live0 := Live();
      ghost var env0 := TreeEnv();
      var mx := elts.Get(e, 0);
      var my := elts.Get(e, 1);
      var r := Rect(mx - elementSx, my - elementSy, mx + elementSx, my + elementSy);
      assert env0.pos[e] == (mx, my);
      assert r == ElementRect(env0, e);
      RemoveHolds(root, rootBox, live0, env0, e);
      root := RemoveRect(root, rootBox, r, e);
      EraseRecord(elts, e);
      var env := TreeEnv();
      forall m | m in live0 - {e} ensures ElementRect(env0, m) == ElementRect(env, m) {
        assert env.pos[m] == (elts.Get(m, 0), elts.Get(m, 1));
      }
      HoldsFrame(root, rootBox, live0 - {e}, env0, env);
    }

    /** `cleanup()`: one pass turning each branch of four empty leaves into an empty leaf. */
    method Cleanup()
      requires Valid()
      modifies this
      ensures Valid() && root == CleanupPass(old(root)).0
    {
      CleanupHolds(root, rootBox, Live(), TreeEnv());
      ghost var live, env := Live(), TreeEnv();
      root := CleanupPass(root).0;
      assert elts.Valid();
      assert Live() == live;
      assert TreeEnv() == env;
    }

    /**
     * `cleanupFull()`: one pass that also merges four leaves holding at most
     * `max_elements / 2` element nodes into one leaf, listing each of their
     * elements once.
     */
    method CleanupFull()
      requires Valid()
      modifies this
      ensures Valid() && root == CleanupFullPass(old(root), maxElements, true).0
    {
      CleanupFullHolds(root, maxElements, rootBox, Live(), TreeEnv());
      ghost var live, env := Live(), TreeEnv();
      root := CleanupFullPass(root, maxElements, true).0;
      assert elts.Valid();
      assert Live() == live;
      assert TreeEnv() == env;
    }

    /**
     * `query(x1, y1, x2, y2, omit_element)`: the element indices whose
     * rectangle meets the query rectangle, in walk order, each once, except
     * the omitted element; with a non-negative half-size and a well-formed
     * rectangle, every such element in use.
     */
    method Query(x1: int, y1: int, x2: int, y2: int, omit: int) returns (out: seq<int>)
      requires Valid()
      modifies this, temp
      ensures Valid() && root == old(root)
      ensures out == AABBHits(root, rootBox, TreeEnv(), Rect(x1, y1, x2, y2), omit)
      ensures Distinct(out)
      ensures forall x :: x in out ==> x in Live() && x != omit && Intersect(Rect(x1, y1, x2, y2), ElementRect(TreeEnv(), x))
      ensures elementSx >= 0 && elementSy >= 0 && x1 <= x2 && y1 <= y2 ==>
        forall e :: e in Live() && e != omit && Intersect(Rect(x1, y1, x2, y2), ElementRect(TreeEnv(), e)) ==> e in out
    {
      var q := Rect(x1, y1, x2, y2);
      ghost var live, env := Live(), TreeEnv();
      assert Sound(elts) && Holds(root, rootBox, live, env);
      QueryHolds(root, rootBox, live, env, q, omit);
      forall f, x | f in FindLeaves(root, [], rootBox, 0, q) && x in LeafElements(f) ensures 0 <= x < elts.size {
        assert x in live;
      }
      out := Search(q, omit, env);
      assert Live() == live;
      assert TreeEnv() == env;
    }

    /**
     * The body of `query`: the leaves found are walked over with the marks
     * grown to the element list and clear, and the marks are cleared again.
     */
    method Search(q: Rect, omit: int, ghost env: Env) returns (out: seq<int>)
      requires Readable(elts) && env == TreeEnv()
      requires temp.Length == tempSize && forall i :: 0 <= i < temp.Length ==> !temp[i]
      requires forall f, x :: f in FindLeaves(root, [], rootBox, 0, q) && x in LeafElements(f) ==> 0 <= x < elts.size
      requires Distinct(AABBHits(root, rootBox, env, q, omit))
      modifies this, temp
      ensures root == old(root) && unchanged(elts, elts.data)
      ensures temp.Length == tempSize && forall i :: 0 <= i < temp.Length ==> !temp[i]
      ensures out == AABBHits(root, rootBox, env, q, omit)
    {
      var leaves := CollectLeaves(Frame(root, [], rootBox, 0), q);
      GrowMarks();
      out := WalkLeaves(leaves, omit, q, env);
      forall x | x in out ensures 0 <= x < temp.Length {
        HitsSpec(leaves, omit, x);
        MatchingSpec(Hits(leaves, omit), env, q);
        DedupSpec(Matching(Hits(leaves, omit), env, q));
      }
      Unmark(out);
    }

    /** `temp` grown, all clear, to the size of the element list when it is shorter. */
    method GrowMarks()
      requires temp.Length == tempSize && forall i :: 0 <= i < temp.Length ==> !temp[i]
      modifies this
      ensures root == old(root) && temp.Length == tempSize && elts.size <= tempSize
      ensures forall i :: 0 <= i < temp.Length ==> !temp[i]
      ensures temp == old(temp) || fresh(temp)
    {
      if tempSize < elts.size {
        tempSize := elts.size;
        temp := new bool[tempSize](_ => false);
      }
    }

    /** The walk over the leaves found, with every mark clear at the start: the query's result, its elements marked. */
    method WalkLeaves(leaves: seq<Frame>, omit: int, q: Rect, ghost env: Env) returns (out: seq<int>)
      requires Readable(elts) && elts.size <= temp.Length && env == TreeEnv()
      requires forall f, x :: f in leaves && x in LeafElements(f) ==> 0 <= x < elts.size
      requires forall i :: 0 <= i < temp.Length ==> !temp[i]
      modifies temp
      ensures out == Dedup(Matching(Hits(leaves, omit), env, q))
      ensures forall i :: 0 <= i < temp.Length ==> (temp[i] <==> i in out)
    {
      out := [];
      var j := 0;
      while j < |leaves|
        invariant 0 <= j <= |leaves|
        invariant out == Dedup(Matching(Hits(leaves[..j], omit), env, q))
        invariant forall i :: 0 <= i < temp.Length ==> (temp[i] <==> i in out)
      {
        var es := LeafElements(leaves[j]);
        assert leaves[j] in leaves;
        out := MarkLeaf(es, omit, q, out, Hits(leaves[..j], omit), env);
        HitsNext(leaves, j, omit);
        j := j + 1;
      }
      assert leaves[..j] == leaves;
    }

    /** `query(x1, y1, x2, y2)`: the query omitting nothing, since no element index is negative. */
    method QueryAll(x1: int, y1: int, x2: int, y2: int) returns (out: seq<int>)
      requires Valid()
      modifies this, temp
      ensures Valid() && root == old(root)
      ensures forall x :: x in out ==> x in Live() && Intersect(Rect(x1, y1, x2, y2), ElementRect(TreeEnv(), x))
      ensures elementSx >= 0 && elementSy >= 0 && x1 <= x2 && y1 <= y2 ==>
        forall e :: e in Live() && Intersect(Rect(x1, y1, x2, y2), ElementRect(TreeEnv(), e)) ==> e in out
    {
      out := Query(x1, y1, x2, y2, -1);
    }

    /**
     * The walk of one leaf's list: each element not yet marked, other than
     * `omit`, whose rectangle meets the query rectangle is appended and marked.
     */
    method MarkLeaf(es: seq<int>, omit: int, q: Rect, out0: seq<int>, ghost h: seq<int>, ghost env: Env) returns (out: seq<int>)
      requires Readable(elts) && elts.size <= temp.Length && env == TreeEnv()
      requires forall x :: x in es ==> 0 <= x < elts.size
      requires out0 == Dedup(Matching(h, env, q))
      requires forall i :: 0 <= i < temp.Length ==> (temp[i] <==> i in out0)
      modifies temp
      ensures out == Dedup(Matching(h + Kept(es, omit), env, q))
      ensures forall i :: 0 <= i < temp.Length ==> (temp[i] <==> i in out)
    {
      out := out0;
      var k := 0;
      assert h + Kept(es[..0], omit) == h;
      ghost var walked := h;
      while k < |es|
        invariant 0 <= k <= |es| && walked == h + Kept(es[..k], omit)
        invariant env == TreeEnv() && out == Dedup(Matching(walked, env, q))
        invariant forall i :: 0 <= i < temp.Length ==> (temp[i] <==> i in out)
      {
        assert es[k] in es;
        out := MarkOne(es[k], omit, q, out, walked, env);
        KeptNext(es, k, omit);
        walked := walked + (if es[k] != omit then [es[k]] else []);
        assert walked == h + Kept(es[..k + 1], omit);
        k := k + 1;
      }
      assert es[..k] == es;
    }

    /**
     * One element of a leaf's list: appended and marked when it is not yet
     * marked, is not `omit` and its rectangle meets the query rectangle.
     */
    method MarkOne(x: int, omit: int, q: Rect, out0: seq<int>, ghost s: seq<int>, ghost env: Env) returns (out: seq<int>)
      requires Readable(elts) && 0 <= x < elts.size <= temp.Length && env == TreeEnv()
      requires out0 == Dedup(Matching(s, env, q))
      requires forall i :: 0 <= i < temp.Length ==> (temp[i] <==> i in out0)
      modifies temp
      ensures out == Dedup(Matching(s + (if x != omit then [x] else []), env, q))
      ensures forall i :: 0 <= i < temp.Length ==> (temp[i] <==> i in out)
    {
      var mx := elts.Get(x, 0);
      var my := elts.Get(x, 1);
      var r := Rect(mx - elementSx, my - elementSy, mx + elementSx, my + elementSy);
      if x != omit {
        assert env.pos[x] == (mx, my);
        assert r == ElementRect(env, x);
        MatchingDedupNext(s, x, env, q);
      } else {
        assert s + [] == s;
      }
      out := out0;
      if !temp[x] && x != omit && Intersect(q, r) {
        out := out + [x];
        temp[x] := true;
      }
    }

    /** Clearing the marks of the elements reported, each listed once. */
    method Unmark(out: seq<int>)
      requires Distinct(out) && forall i :: 0 <= i < temp.Length ==> (temp[i] <==> i in out)
      requires forall x :: x in out ==> 0 <= x < temp.Length
      modifies temp
      ensures forall i :: 0 <= i < temp.Length ==> !temp[i]
    {
      var j := 0;
      while j < |out|
        invariant 0 <= j <= |out|
        invariant forall i :: 0 <= i < temp.Length ==> (temp[i] <==> i in out[j..])
      {
        assert out[j] in out;
        temp[out[j]] := false;
        j := j + 1;
      }
    }
  }
}
