// The element records both quadtrees keep in their `elts` IntList: three
// fields per record (`elt_idx_mx`, `elt_idx_my`, `elt_idx_id`), taken from
// the free list or pushed at the back by `insert` and put on the free list by
// `remove`.

module QuadtreeElements {
  import opened QuadtreeIntList

  /** An element list with three fields per record and a free list that lists distinct records below the size. */
  ghost predicate Sound(l: IntList)
    reads l, l.data
  {
    l.Valid() && l.fieldsPerElement == 3 && FreeSound(l.size, l.free)
  }

  /** The element indices in use. */
  ghost function InUse(l: IntList): set<int>
    reads l
  {
    LiveOf(l.size, l.free)
  }

  /** Enough to read the three fields of every record below the size. */
  predicate Readable(l: IntList)
    reads l
  {
    l.fieldsPerElement == 3 && 0 <= l.size && Times(l.size, 3) <= l.data.Length
  }

  /** The position held by every record below the size; those in use are the element positions. */
  function Positions(l: IntList): map<int, (int, int)>
    reads l, l.data
    requires Readable(l)
  {
    map x | 0 <= x < l.size :: (l.Get(x, 0), l.Get(x, 1))
  }

  /** The id field of each record of `s`, in order (0 for an index past the size, which no caller passes). */
  function Ids(l: IntList, s: seq<int>): seq<int>
    reads l, l.data
    requires Readable(l)
  {
    if s == [] then []
    else
      var x := s[|s| - 1];
      Ids(l, s[..|s| - 1]) + [if 0 <= x < l.size then l.Get(x, 2) else 0]
  }

  lemma {:induction false} IdsAppend(l: IntList, a: seq<int>, b: seq<int>)
    requires Readable(l)
    ensures Ids(l, a + b) == Ids(l, a) + Ids(l, b)
    decreases |b|
  {
    if b != [] {
      var b' := b[..|b| - 1];
      assert (a + b)[..|a + b| - 1] == a + b';
      IdsAppend(l, a, b');
    } else {
      assert a + b == a;
    }
  }

  lemma IdsOne(l: IntList, x: int)
    requires Readable(l)
    ensures Ids(l, [x]) == [if 0 <= x < l.size then l.Get(x, 2) else 0]
  {
    assert [x][..0] == [];
  }

  /** Each position of `Ids` holds the id of the record at the same position of `s`. */
  lemma {:induction false} IdsAt(l: IntList, s: seq<int>)
    requires Readable(l)
    ensures |Ids(l, s)| == |s|
    ensures forall i :: 0 <= i < |s| && 0 <= s[i] < l.size ==> Ids(l, s)[i] == l.Get(s[i], 2)
  {
    if s != [] {
      IdsAt(l, s[..|s| - 1]);
    }
  }

  /**
   * The first half of `insert`: a record taken from the free list or pushed
   * at the back, holding the position and id; the records in use before keep
   * their fields.
   */
  method NewRecord(l: IntList, id: int, x: int, y: int) returns (e: int)
    requires Sound(l)
    modifies l, l.data
    ensures Sound(l)
    ensures e !in old(InUse(l)) && InUse(l) == old(InUse(l)) + {e}
    ensures l.Get(e, 0) == x && l.Get(e, 1) == y && l.Get(e, 2) == id
    ensures forall m, k :: m in old(InUse(l)) && 0 <= k < 3 ==> l.Get(m, k) == old(l.Get(m, k))
  {
    ghost var size0, free0 := l.size, l.free;
    if free0 != [] {
      LiveReuse(size0, free0);
    } else {
      LivePush(size0, free0);
    }
    e := l.Insert();
    l.Set(e, 0, x);
    l.Set(e, 1, y);
    l.Set(e, 2, id);
  }

  /** The last step of `remove`: the record goes on the free list; the others keep their fields. */
  method EraseRecord(l: IntList, e: int)
    requires Sound(l) && e in InUse(l)
    modifies l, l.data
    ensures Sound(l)
    ensures InUse(l) == old(InUse(l)) - {e}
    ensures forall m, k :: m in InUse(l) && 0 <= k < 3 ==> l.Get(m, k) == old(l.Get(m, k))
  {
    SlotBelow(e, 0, 3, l.size);
    LiveErase(l.size, l.free, e);
    l.Erase(e);
  }
}
