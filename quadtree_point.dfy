// `QuadtreePoint`: a quadtree of points. Each element is a record of the
// `elts` IntList (x, y, id); the tree of nodes and element nodes, which the
// source keeps in two more IntLists, is held here as a `QNode` value (see
// QuadtreeNodes). Every element in use is listed by exactly one leaf, the
// leaf `find_leaf` reaches for its position.

module QuadtreePointTree {
  import opened JavaMath
  import opened QuadtreeIntList
  import opened QuadtreeNodes
  import opened QuadtreeCleanup
  import opened QuadtreeQuery
  import opened QuadtreeElements

  /** Adding an index not yet in a set counts it once more. */
  lemma MultisetAdd(s: set<int>, e: int)
    requires e !in s
    ensures multiset(s + {e}) == multiset(s) + multiset{e}
  {
    forall x ensures multiset(s + {e})[x] == (multiset(s) + multiset{e})[x] {
    }
  }

  /** Taking an index out of a set counts it once less. */
  lemma MultisetRemove(s: set<int>, e: int)
    requires e in s
    ensures multiset(s - {e}) == multiset(s) - multiset{e}
  {
    forall x ensures multiset(s - {e})[x] == (multiset(s) - multiset{e})[x] {
    }
  }

  /** Cancelling the found leaf's contents on both sides of the replacement equation. */
  lemma Cancel(a: multiset<int>, b: multiset<int>, m: multiset<int>, e: int)
    requires e in m && a + m == b + (m - multiset{e})
    ensures a == b - multiset{e}
  {
    forall x ensures a[x] == (b - multiset{e})[x] {
      assert (a + m)[x] == (b + (m - multiset{e}))[x];
    }
  }

  /** The tree lists each element of `live` once and nothing else, each under the quadrants of its position. */
  ghost predicate Holds(root: QNode, b: Box, live: set<int>, env: Env)
  {
    Elements(root) == multiset(live) && Placed(root, b, env)
  }

  /** Placement survives any change of positions that keeps those of the elements held. */
  lemma HoldsFrame(root: QNode, b: Box, live: set<int>, env: Env, env': Env)
    requires Holds(root, b, live, env)
    requires forall m :: m in live ==> ElementRect(env, m) == ElementRect(env', m)
    ensures Holds(root, b, live, env')
  {
    MembersOfElements(root);
    PlacedFrame(root, b, env, env');
  }

  /** Placement reads only the positions and the half-size. */
  lemma HoldsSamePositions(root: QNode, b: Box, live: set<int>, env: Env, env': Env)
    requires Holds(root, b, live, env) && env.pos == env'.pos && env.ex == env'.ex && env.ey == env'.ey
    ensures Holds(root, b, live, env')
  {
    HoldsFrame(root, b, live, env, env');
  }

  /** Inserting a new point keeps every element listed once and placed, and lists the new one once. */
  lemma InsertHolds(root: QNode, b: Box, live: set<int>, env: Env, e: int)
    requires Holds(root, b, live, env) && e !in live && env.ex == 0 && env.ey == 0
    ensures Holds(NodeInsert(root, b, 0, e, env), b, live + {e}, env)
  {
    NodeInsertPlaced(root, b, 0, e, env);
    NodeInsertPoint(root, b, 0, e, env);
    MultisetAdd(live, e);
  }

  /**
   * Unlinking a point from the leaf `find_leaf` reaches for its position
   * takes it out of the tree and keeps every other element listed once and placed.
   */
  lemma RemoveHolds(root: QNode, b: Box, live: set<int>, env: Env, e: int)
    requires Holds(root, b, live, env) && e in live && env.ex == 0 && env.ey == 0
    ensures var p := ElementRect(env, e);
      var leaf := FindLeaf(root, [], b, 0, p.lft, p.top);
      Holds(Replace(root, leaf.path, Leaf(RemoveFirst(leaf.node.elements, e))), b, live - {e}, env)
  {
    var p := ElementRect(env, e);
    var x, y := p.lft, p.top;
    var leaf := FindLeaf(root, [], b, 0, x, y);
    var rest := RemoveFirst(leaf.node.elements, e);
    MembersOfElements(root);
    PlacedFindLeaf(root, [], b, 0, e, env);
    FindLeafRoute(root, [], b, 0, x, y);
    assert leaf.path == Route(root, b, x, y);
    RemoveFirstContents(leaf.node.elements, e);
    forall z | z in Members(Leaf(rest)) ensures z in Members(leaf.node) {
      assert z in multiset(rest);
    }
    ReplaceFoundElements(root, b, x, y, Leaf(rest));
    ReplaceFoundPlaced(root, b, x, y, Leaf(rest), env);
    Cancel(Elements(Replace(root, leaf.path, Leaf(rest))), Elements(root), multiset(leaf.node.elements), e);
    MultisetRemove(live, e);
  }

  /**
   * A point query over a tree holding `live`: every element it walks over is
   * in use, and every element in use at a point of the rectangle, other than
   * `omit`, is walked over.
   */
  lemma QueryHolds(root: QNode, b: Box, live: set<int>, env: Env, q: Rect, omit: int)
    requires Holds(root, b, live, env) && env.ex == 0 && env.ey == 0
    ensures forall f, x :: f in FindLeaves(root, [], b, 0, q) && x in LeafElements(f) ==> x in live
    ensures forall x :: x in PointHits(root, b, q, omit) ==> x in live
    ensures forall e :: (e in live && e != omit && q.lft <= ElementRect(env, e).lft <= q.rgt
      && q.top <= ElementRect(env, e).top <= q.btm) ==> e in PointHits(root, b, q, omit)
  {
    MembersOfElements(root);
    forall f, x | f in FindLeaves(root, [], b, 0, q) && x in LeafElements(f) ensures x in live {
      FindLeavesMembers(root, [], b, 0, q, f, x);
    }
    forall e ensures e in PointHits(root, b, q, omit) ==> e in live {
      PointQueryComplete(root, b, env, q, omit, e);
    }
    forall e | e in live && e != omit && q.lft <= ElementRect(env, e).lft <= q.rgt
      && q.top <= ElementRect(env, e).top <= q.btm
      ensures e in PointHits(root, b, q, omit)
    {
      PointQueryComplete(root, b, env, q, omit, e);
    }
  }

  class QuadtreePoint {
    /** The element records: field 0 `elt_idx_mx`, field 1 `elt_idx_my`, field 2 `elt_idx_id`. */
    const elts: IntList
    /** The node tree (the source's `nodes` and `enodes`). */
    var root: QNode
    /** `root_mx`, `root_my`, `root_sx`, `root_sy`. */
    const rootBox: Box
    const maxElements: int
    const maxDepth: int

    /** The element indices in use. */
    ghost function Live(): set<int>
      reads elts
    {
      InUse(elts)
    }

    function TreeEnv(): Env
      reads elts, elts.data
      requires Readable(elts)
    {
      Env(Positions(elts), 0, 0, maxElements, maxDepth)
    }

    /**
     * The element list is sound, the tree lists every element in use exactly
     * once and nothing else, and each sits under the quadrants of its position.
     */
    ghost predicate Valid()
      reads this, elts, elts.data
    {
      Sound(elts) && Holds(root, rootBox, Live(), TreeEnv())
    }

    /** `QuadtreePoint(width, height, start_max_elements, start_max_depth)`: an empty tree centred on (width / 2, height / 2). */
    constructor (width: int, height: int, startMaxElements: int, startMaxDepth: int)
      ensures Valid() && fresh(elts) && Live() == {} && root == Leaf([])
      ensures rootBox == Box(Div(width, 2), Div(height, 2), Div(width, 2), Div(height, 2))
      ensures maxElements == startMaxElements && maxDepth == startMaxDepth
    {
      elts := new IntList(3, 128);
      root := Leaf([]);
      rootBox := Box(Div(width, 2), Div(height, 2), Div(width, 2), Div(height, 2));
      maxElements := startMaxElements;
      maxDepth := startMaxDepth;
      new;
      assert Live() == {};
    }

    /**
     * `insert(id, x, y)`: a new element index (a reused one when some were
     * removed) holding the position and id, listed by the leaf of its
     * position; every other element keeps its fields.
     */
    method Insert(id: int, x: int, y: int) returns (e: int)
      requires Valid()
      modifies this, elts, elts.data
      ensures Valid()
      ensures e !in old(Live()) && Live() == old(Live()) + {e}
      ensures elts.Get(e, 0) == x && elts.Get(e, 1) == y && elts.Get(e, 2) == id
      ensures forall m, k :: m in old(Live()) && 0 <= k < 3 ==> elts.Get(m, k) == old(elts.Get(m, k))
    {
      ghost var live0 := Live();
      ghost var env0 := TreeEnv();
      e := NewRecord(elts, id, x, y);
      var env := TreeEnv();
      forall m | m in live0 ensures ElementRect(env0, m) == ElementRect(env, m) {
        assert env.pos[m] == (elts.Get(m, 0), elts.Get(m, 1));
      }
      HoldsFrame(root, rootBox, live0, env0, env);
      InsertHolds(root, rootBox, live0, env, e);
      root := NodeInsert(root, rootBox, 0, e, env);
      assert TreeEnv() == env && Live() == live0 + {e};
    }

    /**
     * `remove(elementIdx)`: the element node is unlinked from the leaf of the
     * element's position and the record is erased; every other element keeps
     * its fields and its place.
     */
    method Remove(e: int)
      requires Valid() && e in Live()
      modifies this, elts, elts.data
      ensures Valid()
      ensures Live() == old(Live()) - {e}
      ensures forall m, k :: m in Live() && 0 <= k < 3 ==> elts.Get(m, k) == old(elts.Get(m, k))
    {
      ghost var live0 := Live();
      ghost var env0 := TreeEnv();
      var x := elts.Get(e, 0);
      var y := elts.Get(e, 1);
      var leaf := LocateLeaf(Frame(root, [], rootBox, 0), x, y);
      var rest, found := Unlink(leaf.node.elements, e);
      RemoveHolds(root, rootBox, live0, env0, e);
      root := Replace(root, leaf.path, Leaf(rest));
      EraseRecord(elts, e);
      var env := TreeEnv();
      forall m | m in live0 - {e} ensures ElementRect(env0, m) == ElementRect(env, m) {
        assert env.pos[m] == (elts.Get(m, 0), elts.Get(m, 1));
      }
      HoldsFrame(root, rootBox, live0 - {e}, env0, env);
    }

    /**
     * `cleanup()`: one pass turning each branch of four empty leaves into an
     * empty leaf; reports whether the tree changed, and every change shrinks it.
     */
    method Cleanup() returns (changed: bool)
      requires Valid()
      modifies this
      ensures Valid() && root == CleanupPass(old(root)).0
      ensures changed <==> root != old(root)
      ensures changed ==> Size(root) < Size(old(root))
    {
      CleanupChanged(root);
      CleanupKeeps(root);
      CleanupPlaced(root, rootBox, TreeEnv());
      ghost var live, env := Live(), TreeEnv();
      var r := CleanupPass(root);
      root, changed := r.0, r.1;
      assert elts.Valid();
      assert Live() == live;
      assert TreeEnv() == env;
    }

    /**
     * `cleanupFull()`: one pass that also merges four leaves holding at most
     * `max_elements / 2` element nodes into one; every element stays listed
     * exactly once.
     */
    method CleanupFull() returns (changed: bool)
      requires Valid()
      modifies this
      ensures Valid() && root == CleanupFullPass(old(root), maxElements, false).0
      ensures changed <==> root != old(root)
      ensures changed ==> Size(root) < Size(old(root))
    {
      CleanupFullChanged(root, maxElements, false);
      CleanupFullMembers(root, maxElements, false);
      CleanupFullPlaced(root, maxElements, false, rootBox, TreeEnv());
      ghost var live, env := Live(), TreeEnv();
      var r := CleanupFullPass(root, maxElements, false);
      root, changed := r.0, r.1;
      assert elts.Valid();
      assert Live() == live;
      assert TreeEnv() == env;
    }

    /**
     * `query(x1, y1, x2, y2, omit_element)`: the ids of the elements listed by
     * the leaves the rectangle reaches, in walk order, except the omitted
     * element; every element in use whose position lies in the rectangle is
     * among them.
     */
    method Query(x1: int, y1: int, x2: int, y2: int, omit: int) returns (out: seq<int>)
      requires Valid()
      ensures var hits := PointHits(root, rootBox, Rect(x1, y1, x2, y2), omit);
        |out| == |hits| && forall i :: 0 <= i < |out| ==> hits[i] in Live() && out[i] == elts.Get(hits[i], 2)
      ensures forall e :: (e in Live() && e != omit && x1 <= elts.Get(e, 0) <= x2 && y1 <= elts.Get(e, 1) <= y2
        ==> elts.Get(e, 2) in out)
    {
      var q := Rect(x1, y1, x2, y2);
      var leaves := CollectLeaves(Frame(root, [], rootBox, 0), q);
      ghost var live, env := Live(), TreeEnv();
      QueryHolds(root, rootBox, live, env, q, omit);
      assert leaves == FindLeaves(root, [], rootBox, 0, q);
      out := Walk(leaves, omit);
      ghost var hits := Hits(leaves, omit);
      IdsAt(elts, hits);
      forall i | 0 <= i < |out| ensures hits[i] in Live() && out[i] == elts.Get(hits[i], 2) {
        assert hits[i] in PointHits(root, rootBox, q, omit);
      }
      forall e | e in live && e != omit && x1 <= elts.Get(e, 0) <= x2 && y1 <= elts.Get(e, 1) <= y2
        ensures elts.Get(e, 2) in out
      {
        assert env.pos[e] == (elts.Get(e, 0), elts.Get(e, 1));
        assert e in hits;
        var i :| 0 <= i < |hits| && hits[i] == e;
        assert out[i] == elts.Get(e, 2);
      }
    }

    /** The walk over the leaves found: the id of each element they list other than `omit`, in walk order. */
    method Walk(leaves: seq<Frame>, omit: int) returns (out: seq<int>)
      requires Readable(elts)
      ensures out == Ids(elts, Hits(leaves, omit))
    {
      out := [];
      var j := 0;
      while j < |leaves|
        invariant 0 <= j <= |leaves| && out == Ids(elts, Hits(leaves[..j], omit))
      {
        var es := LeafElements(leaves[j]);
        var ids := LeafIds(es, omit);
        HitsNext(leaves, j, omit);
        IdsAppend(elts, Hits(leaves[..j], omit), Kept(es, omit));
        out := out + ids;
        j := j + 1;
      }
      assert leaves[..j] == leaves;
    }

    /** The walk of one leaf's list: the id of each element other than `omit`, in list order. */
    method LeafIds(es: seq<int>, omit: int) returns (ids: seq<int>)
      requires Readable(elts)
      ensures ids == Ids(elts, Kept(es, omit))
    {
      ids := [];
      var k := 0;
      while k < |es|
        invariant 0 <= k <= |es| && ids == Ids(elts, Kept(es[..k], omit))
      {
        ghost var before := Kept(es[..k], omit);
        KeptNext(es, k, omit);
        if es[k] != omit {
          var id := if 0 <= es[k] < elts.size then elts.Get(es[k], 2) else 0;
          IdsOne(elts, es[k]);
          IdsAppend(elts, before, [es[k]]);
          assert Kept(es[..k + 1], omit) == before + [es[k]];
          ids := ids + [id];
        } else {
          assert Kept(es[..k + 1], omit) == before;
        }
        k := k + 1;
      }
      assert es[..k] == es;
    }

    /**
     * `copy(tree)`: this tree takes the other's elements and nodes; its own
     * extents stay, so the result is consistent only when they agree.
     */
    method Copy(other: QuadtreePoint)
      requires Valid() && other.Valid() && other != this && other.elts != elts
      modifies this, elts, elts.data
      ensures root == other.root && Live() == old(other.Live()) && elts.Valid()
      ensures forall m, k :: m in Live() && 0 <= k < 3 ==> elts.Get(m, k) == old(other.elts.Get(m, k))
      ensures rootBox == other.rootBox ==> Valid()
    {
      ghost var live1, env1 := other.Live(), other.TreeEnv();
      assert Holds(other.root, rootBox, live1, env1) <== rootBox == other.rootBox;
      CopyRecords(other.elts);
      root := other.root;
      if rootBox == other.rootBox {
        HoldsSamePositions(root, rootBox, live1, env1, TreeEnv());
      }
    }

    /** The element half of `copy`: this list takes the other's records and free list. */
    method CopyRecords(source: IntList)
      requires elts.Valid() && elts.fieldsPerElement == 3 && source.Valid() && source.fieldsPerElement == 3
      requires FreeSound(source.size, source.free) && source != elts
      modifies elts, elts.data
      ensures elts.Valid() && source.Valid() && FreeSound(elts.size, elts.free)
      ensures elts.size == source.size && Live() == LiveOf(source.size, source.free)
      ensures forall m, k :: 0 <= m < elts.size && 0 <= k < 3 ==> elts.Get(m, k) == old(source.Get(m, k))
      ensures Positions(elts) == old(Positions(source))
    {
      elts.Copy(source);
      forall m, k | 0 <= m < elts.size && 0 <= k < 3 ensures elts.Get(m, k) == old(source.Get(m, k)) {
        SlotBelow(m, k, 3, source.size);
        assert source.data[Times(m, 3) + k] == old(source.data[..])[Times(m, 3) + k];
      }
    }
  }
}
