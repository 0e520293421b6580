/**
 * Named groups of entities. Each group keeps a bag of its members (an
 * unordered array list whose removal moves the last entry into the freed
 * slot), a map from each member to its slot in that bag, and each entity
 * keeps the set of groups it belongs to.
 */
module Groups {
  import IDs

  type Entity = IDs.EntityReference

  /** Every member has the slot it occupies in the bag, and every slot holds a member recorded at that slot. */
  predicate Consistent(m: map<Entity, int>, b: seq<Entity>)
  {
    (forall e :: e in m ==> 0 <= m[e] < |b| && b[m[e]] == e) &&
    (forall i :: 0 <= i < |b| ==> b[i] in m && m[b[i]] == i)
  }

  /** Every group's membership map is consistent with its bag. */
  predicate AllConsistent(M: map<string, map<Entity, int>>, B: map<string, seq<Entity>>)
  {
    forall g :: g in M && g in B ==> Consistent(M[g], B[g])
  }

  /** A group's membership map, empty when the group has none. */
  function Members(M: map<string, map<Entity, int>>, g: string): map<Entity, int>
  {
    if g in M then M[g] else map[]
  }

  /** A group's bag, empty when the group has none. */
  function BagOf(B: map<string, seq<Entity>>, g: string): seq<Entity>
  {
    if g in B then B[g] else []
  }

  /** An entity's group set, empty when it has none. */
  function GroupsOf(G: map<Entity, set<string>>, e: Entity): set<string>
  {
    if e in G then G[e] else {}
  }

  /** The group-to-entity and entity-to-group maps describe the same relation. */
  predicate Linked(M: map<string, map<Entity, int>>, G: map<Entity, set<string>>)
  {
    (forall g, e :: g in M && e in M[g] ==> e in G && g in G[e]) &&
    (forall e, g :: e in G && g in G[e] ==> g in M && e in M[g])
  }

  /** `Bag.remove(i)` for a bag of more than one entry, else `Bag.removeLast()`. */
  function LeaveBag(b: seq<Entity>, i: int): (r: seq<Entity>)
    requires 0 <= i < |b|
    ensures |r| == |b| - 1
  {
    if |b| > 1 then b[i := b[|b| - 1]][..|b| - 1] else b[..|b| - 1]
  }

  /** The index map after `remove` as written: the last bag entry is always recorded at the freed slot. */
  function LeaveIndex(m: map<Entity, int>, b: seq<Entity>, e: Entity): map<Entity, int>
    requires e in m && |b| > 0
  {
    if |b| > 1 then (m - {e})[b[|b| - 1] := m[e]] else m - {e}
  }

  /** The index map after a removal that re-records the last entry only when it is not the removed entity. */
  function LeaveIndexFixed(m: map<Entity, int>, b: seq<Entity>, e: Entity): map<Entity, int>
    requires e in m && |b| > 0
  {
    if |b| > 1 && b[|b| - 1] != e then (m - {e})[b[|b| - 1] := m[e]] else m - {e}
  }

  /** Appending a new member at the end records it at its slot. */
  lemma EnterConsistent(m: map<Entity, int>, b: seq<Entity>, e: Entity)
    requires Consistent(m, b) && e !in m
    ensures Consistent(m[e := |b|], b + [e])
  {
    var m', b' := m[e := |b|], b + [e];
    forall i | 0 <= i < |b'|
      ensures b'[i] in m' && m'[b'[i]] == i
    {
      if i < |b| {
        assert b'[i] == b[i] && b[i] != e;
      }
    }
  }

  /** The corrected removal keeps the slots consistent and drops exactly the removed entity. */
  lemma LeaveFixedConsistent(m: map<Entity, int>, b: seq<Entity>, e: Entity)
    requires Consistent(m, b) && e in m
    ensures Consistent(LeaveIndexFixed(m, b, e), LeaveBag(b, m[e]))
    ensures LeaveIndexFixed(m, b, e).Keys == m.Keys - {e}
    ensures forall x :: x in LeaveBag(b, m[e]) <==> x in b && x != e
  {
    var i, last := m[e], |b| - 1;
    var m', b' := LeaveIndexFixed(m, b, e), LeaveBag(b, i);
    if i == last {
      assert b' == b[..last];
      forall x | x in b
        ensures x in b' <==> x != e
      {
        var k := m[x];
        assert b[k] == x;
      }
    } else {
      var moved := b[last];
      assert moved != e by {
        assert m[moved] == last;
      }
      forall j | 0 <= j < |b'|
        ensures b'[j] in m' && m'[b'[j]] == j
      {
        if j != i {
          assert b'[j] == b[j] && b[j] != e;
        }
      }
      forall x | x in m'
        ensures 0 <= m'[x] < |b'| && b'[m'[x]] == x
      {
        if x != moved {
          assert m'[x] == m[x] && m[x] != last && m[x] != i;
        }
      }
      forall x | x in b
        ensures x in b' <==> x != e
      {
        var k := m[x];
        assert b[k] == x;
        if x != e && k != last {
          assert b'[k] == x;
        } else if x != e {
          assert b'[i] == x;
        }
      }
    }
  }

  /** As written, removal re-records the removed entity whenever it is not in the last slot: then both agree. */
  lemma LeaveAgrees(m: map<Entity, int>, b: seq<Entity>, e: Entity)
    requires Consistent(m, b) && e in m && m[e] < |b| - 1
    ensures LeaveIndex(m, b, e) == LeaveIndexFixed(m, b, e)
  {
    assert m[b[|b| - 1]] == |b| - 1;
  }

  /**
   * As written, removing the entity in the last slot of a bag of two or more
   * records it again, at a slot past the shrunken bag: it still counts as a
   * member though the bag no longer holds it.
   */
  lemma LeaveLastStale(m: map<Entity, int>, b: seq<Entity>, e: Entity)
    requires Consistent(m, b) && e in m && |b| > 1 && m[e] == |b| - 1
    ensures e in LeaveIndex(m, b, e) && LeaveIndex(m, b, e)[e] == |LeaveBag(b, m[e])|
    ensures e !in LeaveBag(b, m[e])
    ensures !Consistent(LeaveIndex(m, b, e), LeaveBag(b, m[e]))
  {
    var b' := LeaveBag(b, m[e]);
    assert b' == b[..|b| - 1];
    forall k | 0 <= k < |b'|
      ensures b'[k] != e
    {
      assert m[b[k]] == k;
    }
  }

  /** Adding a membership to both maps keeps them describing the same relation. */
  lemma LinkEnter(M: map<string, map<Entity, int>>, G: map<Entity, set<string>>, g: string, e: Entity, k: int)
    requires Linked(M, G)
    ensures Linked(M[g := Members(M, g)[e := k]], G[e := GroupsOf(G, e) + {g}])
  {
  }

  /** Adding a membership to a group whose map is being rebuilt keeps both maps describing the same relation. */
  lemma LinkEnterAt(M: map<string, map<Entity, int>>, G: map<Entity, set<string>>, g: string, m: map<Entity, int>, e: Entity, k: int)
    requires Linked(M[g := m], G)
    ensures Linked(M[g := m[e := k]], G[e := GroupsOf(G, e) + {g}])
  {
    LinkEnter(M[g := m], G, g, e, k);
    assert M[g := m][g := Members(M[g := m], g)[e := k]] == M[g := m[e := k]];
  }

  /**
   * The loop of `add(entities, group)`: each listed entity that is not yet a
   * member is appended to the bag, recorded at its slot and given the group.
   */
  method EnterAll(M: map<string, map<Entity, int>>, G: map<Entity, set<string>>, g: string,
                  m: map<Entity, int>, b: seq<Entity>, es: seq<Entity>)
    returns (m': map<Entity, int>, b': seq<Entity>, G': map<Entity, set<string>>)
    requires Consistent(m, b) && Linked(M[g := m], G)
    ensures Consistent(m', b') && Linked(M[g := m'], G')
    ensures b' == Appended(b, es)
    ensures forall e :: e in es ==> e in m'
  {
    m', b', G' := m, b, G;
    var i := 0;
    while i < |es|
      invariant 0 <= i <= |es|
      invariant Consistent(m', b') && Linked(M[g := m'], G')
      invariant b' == Appended(b, es[..i])
    {
      var e := es[i];
      assert es[..i + 1][..i] == es[..i];
      ConsistentMembers(m', b');
      if e !in m' {
        EnterConsistent(m', b', e);
        LinkEnterAt(M, G', g, m', e, |b'|);
        m' := m'[e := |b'|];
        b' := b' + [e];
        G' := G'[e := GroupsOf(G', e) + {g}];
      }
      i := i + 1;
    }
    assert es[..i] == es;
    AppendedMembers(b, es);
    ConsistentMembers(m', b');
  }

  /** Replacing one group's map and bag by a consistent pair keeps every group consistent. */
  lemma AllConsistentSet(M: map<string, map<Entity, int>>, B: map<string, seq<Entity>>, g: string, m: map<Entity, int>, b: seq<Entity>)
    requires AllConsistent(M, B) && Consistent(m, b)
    ensures AllConsistent(M[g := m], B[g := b])
  {
  }

  /** Dropping one membership from both maps keeps them describing the same relation. */
  lemma LinkLeave(M: map<string, map<Entity, int>>, G: map<Entity, set<string>>, g: string, e: Entity, m': map<Entity, int>)
    requires Linked(M, G) && g in M && e in M[g]
    requires m'.Keys == M[g].Keys - {e}
    ensures Linked(M[g := m'], G[e := G[e] - {g}])
  {
  }

  /** The group set of every entity with `g` removed for the listed members. */
  function Strip(G: map<Entity, set<string>>, g: string, b: seq<Entity>): map<Entity, set<string>>
  {
    map e | e in G :: if e in b then G[e] - {g} else G[e]
  }

  /** Emptying a group and removing it from its members' sets keeps the maps describing the same relation. */
  lemma LinkClear(M: map<string, map<Entity, int>>, G: map<Entity, set<string>>, g: string, b: seq<Entity>)
    requires Linked(M, G) && g in M && Consistent(M[g], b)
    ensures Linked(M[g := map[]], Strip(G, g, b))
  {
    var M', G' := M[g := map[]], Strip(G, g, b);
    ConsistentMembers(M[g], b);
    forall g', e | e in G' && g' in G'[e]
      ensures g' in M' && e in M'[g']
    {
      assert g' in G[e];
    }
  }

  /** The bag after adding `e`: unchanged if it holds `e`, else `e` appended. */
  function Enter(b: seq<Entity>, e: Entity): seq<Entity>
  {
    if e in b then b else b + [e]
  }

  /** The members of `b` followed by each listed entity not already present, in list order. */
  function Appended(b: seq<Entity>, es: seq<Entity>): seq<Entity>
  {
    if es == [] then b else Enter(Appended(b, es[..|es| - 1]), es[|es| - 1])
  }

  /** With consistent slots, the bag holds exactly the recorded members. */
  lemma ConsistentMembers(m: map<Entity, int>, b: seq<Entity>)
    requires Consistent(m, b)
    ensures forall x :: x in b <==> x in m
    ensures |m| == 0 ==> b == []
  {
    forall x | x in b
      ensures x in m
    {
      var k :| 0 <= k < |b| && b[k] == x;
    }
    if |b| > 0 {
      assert b[0] in m.Keys;
    }
  }

  /** Adding a list keeps the old bag as a prefix and holds exactly the old members and the listed entities. */
  lemma {:induction false} AppendedMembers(b: seq<Entity>, es: seq<Entity>)
    ensures |Appended(b, es)| >= |b| && Appended(b, es)[..|b|] == b
    ensures forall x :: x in Appended(b, es) <==> x in b || x in es
  {
    if es != [] {
      var init := es[..|es| - 1];
      AppendedMembers(b, init);
      var p := Appended(b, init);
      assert forall x :: x in es <==> x in init || x == es[|es| - 1];
      if es[|es| - 1] !in p {
        assert Appended(b, es) == p + [es[|es| - 1]];
        assert (p + [es[|es| - 1]])[..|b|] == p[..|b|];
      }
    }
  }

  /** Removes `g` from the group set of every listed entity; the entity-to-groups map is updated one entity at a time. */
  method StripGroup(G: map<Entity, set<string>>, g: string, b: seq<Entity>) returns (G': map<Entity, set<string>>)
    requires forall e :: e in b ==> e in G
    ensures G' == Strip(G, g, b)
  {
    G' := G;
    var i := 0;
    while i < |b|
      invariant 0 <= i <= |b|
      invariant G'.Keys == G.Keys
      invariant forall e :: e in G' ==> G'[e] == if e in b[..i] then G[e] - {g} else G[e]
    {
      assert forall e :: e in b[..i + 1] <==> e in b[..i] || e == b[i];
      G' := G'[b[i] := G'[b[i]] - {g}];
      i := i + 1;
    }
    assert b[..i] == b;
  }

  class GroupSystem {
    var membership: map<string, map<Entity, int>>
    var bags: map<string, seq<Entity>>
    var groups: map<Entity, set<string>>

    /** Each group has a membership map and a bag, consistent with each other and with the entities' group sets. */
    ghost predicate Valid()
      reads this
    {
      membership.Keys == bags.Keys &&
      AllConsistent(membership, bags) &&
      Linked(membership, groups)
    }

    constructor ()
      ensures Valid() && membership == map[] && bags == map[] && groups == map[]
    {
      membership := map[];
      bags := map[];
      groups := map[];
    }

    predicate IsMemberOf(e: Entity, g: string)
      reads this
    {
      g in membership && e in membership[g]
    }

    /** `get(group)`: the group's bag, empty for an unknown group; it holds exactly the group's members. */
    function Get(g: string): (r: seq<Entity>)
      reads this
      ensures g !in bags ==> r == []
      ensures Valid() ==> forall e :: e in r ==> IsMemberOf(e, g)
      ensures Valid() && g in membership ==> forall e :: e in membership[g] ==> e in r
    {
      BagOf(bags, g)
    }

    /** `get(entity)`: the entity's groups, empty for an unknown entity; exactly the groups it is a member of. */
    function GetGroups(e: Entity): (r: set<string>)
      reads this
      ensures e !in groups ==> r == {}
      ensures Valid() ==> forall g :: g in r <==> IsMemberOf(e, g)
    {
      GroupsOf(groups, e)
    }

    /** `add(entity, group)`: a new member goes at the end of the bag, recorded at that slot; a member is left alone. */
    method Add(e: Entity, g: string)
      requires Valid()
      modifies this
      ensures Valid() && IsMemberOf(e, g) && g in GetGroups(e)
      ensures bags == old(bags)[g := Enter(BagOf(old(bags), g), e)]
      ensures old(IsMemberOf(e, g)) ==> unchanged(this)
      ensures !old(IsMemberOf(e, g)) ==>
        (membership == old(membership)[g := Members(old(membership), g)[e := |BagOf(old(bags), g)|]] &&
         bags == old(bags)[g := BagOf(old(bags), g) + [e]] &&
         groups == old(groups)[e := GroupsOf(old(groups), e) + {g}])
    {
      if g in membership {
        ConsistentMembers(membership[g], bags[g]);
      }
      if g in membership && e in membership[g] {
        return;
      }
      var m := Members(membership, g);
      var b := BagOf(bags, g);
      if g in membership {
        EnterConsistent(m, b, e);
      }
      LinkEnter(membership, groups, g, e, |b|);
      membership := membership[g := m[e := |b|]];
      bags := bags[g := b + [e]];
      groups := groups[e := GroupsOf(groups, e) + {g}];
    }

    /** `add(entities, group)`: creates the group if needed, then adds each listed entity that is not yet a member. */
    method AddAll(es: seq<Entity>, g: string)
      requires Valid()
      modifies this
      ensures Valid() && g in membership
      ensures bags == old(bags)[g := Appended(BagOf(old(bags), g), es)]
      ensures forall e :: e in es ==> IsMemberOf(e, g)
    {
      var m := Members(membership, g);
      var b := BagOf(bags, g);
      if g !in membership {
        LinkEnterGroup(membership, groups, g);
        assert membership[g := map[]] == membership[g := m];
      } else {
        assert membership[g := m] == membership;
      }
      var m', b', G' := EnterAll(membership, groups, g, m, b, es);
      AllConsistentSet(membership, bags, g, m', b');
      membership := membership[g := m'];
      bags := bags[g := b'];
      groups := G';
    }

    /** `remove(entity, group)`, corrected: the last entry moves into the freed slot and is re-recorded only if it is another entity. */
    method Remove(e: Entity, g: string)
      requires Valid()
      modifies this
      ensures Valid() && !IsMemberOf(e, g)
      ensures bags.Keys == old(bags).Keys
      ensures forall h :: h in bags && h != g ==> bags[h] == old(bags)[h]
      ensures forall x :: x in Get(g) <==> x in old(Get(g)) && x != e
      ensures !old(IsMemberOf(e, g)) ==> unchanged(this)
      ensures old(IsMemberOf(e, g)) ==>
        (membership == old(membership)[g := LeaveIndexFixed(old(membership[g]), old(bags[g]), e)] &&
         bags == old(bags)[g := LeaveBag(old(bags[g]), old(membership[g][e]))] &&
         groups == old(groups)[e := old(groups[e]) - {g}])
    {
      if g in membership {
        ConsistentMembers(membership[g], bags[g]);
      }
      if g !in membership || e !in membership[g] {
        return;
      }
      var m, b := membership[g], bags[g];
      LeaveFixedConsistent(m, b, e);
      var m' := LeaveIndexFixed(m, b, e);
      LinkLeave(membership, groups, g, e, m');
      membership := membership[g := m'];
      bags := bags[g := LeaveBag(b, m[e])];
      groups := groups[e := groups[e] - {g}];
    }

    /** `remove(entity, group)` as written: the last entry is always re-recorded at the freed slot. */
    method RemoveAsWritten(e: Entity, g: string)
      requires Valid()
      modifies this
      ensures !old(IsMemberOf(e, g)) ==> unchanged(this)
      ensures old(IsMemberOf(e, g)) ==>
        (membership == old(membership)[g := LeaveIndex(old(membership[g]), old(bags[g]), e)] &&
         bags == old(bags)[g := LeaveBag(old(bags[g]), old(membership[g][e]))] &&
         groups == old(groups)[e := old(groups[e]) - {g}])
    {
      if g !in membership || e !in membership[g] {
        return;
      }
      var m, b := membership[g], bags[g];
      var index := m[e];
      membership := membership[g := LeaveIndex(m, b, e)];
      bags := bags[g := LeaveBag(b, index)];
      groups := groups[e := groups[e] - {g}];
    }

    /** `remove(entities, group)`: nothing for an absent or empty group; otherwise each listed member is removed. */
    method RemoveAll(es: seq<Entity>, g: string)
      requires Valid()
      modifies this
      ensures Valid()
      ensures forall e :: e in es ==> !IsMemberOf(e, g)
      ensures bags.Keys == old(bags).Keys
      ensures forall x :: x in Get(g) <==> x in old(Get(g)) && x !in es
      ensures forall h :: h in bags && h != g ==> bags[h] == old(bags)[h]
    {
      if g in membership {
        ConsistentMembers(membership[g], bags[g]);
      }
      if g !in membership || |membership[g]| == 0 {
        return;
      }
      var i := 0;
      while i < |es|
        invariant 0 <= i <= |es|
        invariant Valid()
        invariant bags.Keys == old(bags).Keys
        invariant forall x :: x in Get(g) <==> x in old(Get(g)) && x !in es[..i]
        invariant forall h :: h in bags && h != g ==> bags[h] == old(bags)[h]
      {
        assert forall x :: x in es[..i + 1] <==> x in es[..i] || x == es[i];
        Remove(es[i], g);
        i := i + 1;
      }
      assert es[..i] == es;
      ConsistentMembers(membership[g], bags[g]);
    }

    /** `clear(group)`: nothing for an absent or empty group; otherwise the group loses every member. */
    method Clear(g: string)
      requires Valid()
      modifies this
      ensures Valid() && Get(g) == []
      ensures forall e :: !IsMemberOf(e, g)
      ensures old(g !in membership || |membership[g]| == 0) ==> unchanged(this)
      ensures old(g in membership && |membership[g]| > 0) ==>
        (membership == old(membership)[g := map[]] && bags == old(bags)[g := []] &&
         groups == Strip(old(groups), g, old(bags[g])))
    {
      if g in membership {
        ConsistentMembers(membership[g], bags[g]);
      }
      if g !in membership || |membership[g]| == 0 {
        return;
      }
      var b := bags[g];
      ClearKeeps(membership, bags, groups, g);
      var G' := StripGroup(groups, g, b);
      membership := membership[g := map[]];
      groups := G';
      bags := bags[g := []];
    }
  }

  /** Emptying a group's map and bag and removing it from its members' sets keeps all three consistent. */
  lemma ClearKeeps(M: map<string, map<Entity, int>>, B: map<string, seq<Entity>>, G: map<Entity, set<string>>, g: string)
    requires M.Keys == B.Keys && AllConsistent(M, B) && Linked(M, G) && g in M
    ensures AllConsistent(M[g := map[]], B[g := []])
    ensures Linked(M[g := map[]], Strip(G, g, B[g]))
    ensures forall e :: e in B[g] ==> e in G
  {
    LinkClear(M, G, g, B[g]);
    ConsistentMembers(M[g], B[g]);
  }

  /** Creating an empty group keeps the maps describing the same relation. */
  lemma LinkEnterGroup(M: map<string, map<Entity, int>>, G: map<Entity, set<string>>, g: string)
    requires Linked(M, G) && g !in M
    ensures Linked(M[g := map[]], G)
  {
  }

  /**
   * The stale record left by `remove` as written: in a group of two, removing
   * the member in the last slot leaves it recorded as a member that its own
   * group set and the bag no longer hold.
   */
  method RemoveLastStaysMember(a: Entity, b: Entity) returns (s: GroupSystem)
    requires a != b
    ensures s.IsMemberOf(b, "g") && b !in s.Get("g") && "g" !in s.GetGroups(b)
  {
    s := new GroupSystem();
    s.Add(a, "g");
    s.Add(b, "g");
    s.RemoveAsWritten(b, "g");
  }
}
