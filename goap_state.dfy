/**
 * The GOAP world state: a key -> value map with the set algebra the planner
 * uses (union, missing difference, conflict tests). The live map is one of two
 * buffers; `replaceWithMissingDifference` fills the other buffer and swaps.
 */
module GoapState {
  import opened Wrappers
  import JavaMath

  type Key = string
  /** Values are compared with `equals`; any type with equality would do. */
  type Val = int
  type StateMap = map<Key, Val>

  /** The pairs of `self` whose key is absent from `other` or maps to another value. */
  function Missing(self: StateMap, other: StateMap): (d: StateMap)
    ensures d.Keys <= self.Keys
    ensures forall k :: k in d ==> d[k] == self[k]
  {
    map k | k in self && (k !in other || other[k] != self[k]) :: self[k]
  }

  /** Some pair of `other` is also a pair of `self`. */
  predicate HasAnySpec(self: StateMap, other: StateMap)
  {
    exists k :: k in other && k in self && self[k] == other[k]
  }

  /** Some key present in both maps has different values; keys absent from `self` are ignored. */
  predicate ConflictSpec(self: StateMap, other: StateMap)
  {
    exists k :: k in other && k in self && other[k] != self[k]
  }

  /** As `ConflictSpec`, but a mismatch is excused where `changes` sets the key to `self`'s value. */
  predicate ConflictUnlessChangedSpec(self: StateMap, changes: StateMap, other: StateMap)
  {
    exists k :: k in other && k in self && other[k] != self[k] && !(k in changes && self[k] == changes[k])
  }

  /** The counter of a `missingDifference` loop that stops once it reaches `stopAt`. */
  function BoundedCount(total: nat, stopAt: int): (c: nat)
    ensures c <= total
    ensures c == 0 <==> total == 0
    ensures stopAt >= 1 ==> c <= stopAt
    ensures c < total ==> c == JavaMath.Max(stopAt, 1)
  {
    if total == 0 then 0 else JavaMath.Min(total, JavaMath.Max(stopAt, 1))
  }

  /** `HashMap.size()` is an `int`: a map this small is counted exactly by the unbounded overloads. */
  predicate Fits(m: StateMap)
  {
    |m| <= JavaMath.INT_MAX
  }

  /** `m` is a sub-map of `big`: every pair of `m` is a pair of `big`. */
  predicate SubMap(m: StateMap, big: StateMap)
  {
    forall k :: k in m ==> k in big && big[k] == m[k]
  }

  /** Zero missing pairs means `other` agrees with every pair of `self`. */
  lemma {:induction false} NoMissingMeansSatisfied(self: StateMap, other: StateMap)
    ensures |Missing(self, other)| == 0 <==> SubMap(self, other)
  {
    if |Missing(self, other)| == 0 {
      assert Missing(self, other).Keys == {};
      forall k | k in self ensures k in other && other[k] == self[k] {
        assert k !in Missing(self, other);
      }
    } else {
      var k :| k in Missing(self, other);
      assert !(k in other && other[k] == self[k]);
    }
  }

  /** Merging the pairs of `b` into `a` satisfies `b` and leaves no pair of `b` missing. */
  lemma {:induction false} MergeSatisfies(a: StateMap, b: StateMap)
    ensures SubMap(b, a + b)
    ensures Missing(b, a + b) == map[]
    ensures forall k :: k in a && k !in b ==> (a + b)[k] == a[k]
  {
    if Missing(b, a + b) != map[] {
      var k :| k in Missing(b, a + b);
      assert false;
    }
  }

  /** The missing difference is exactly the part of `self` that `other` does not satisfy. */
  lemma {:induction false} MissingPartition(self: StateMap, other: StateMap)
    ensures SubMap(Missing(self, other), self)
    ensures forall k :: k in self && k !in Missing(self, other) ==> k in other && other[k] == self[k]
    ensures Missing(Missing(self, other), other) == Missing(self, other)
  {
  }

  /**
   * `w` holds `count` of the pairs `other` lacks from `self`, and all of them
   * once `count` reaches their number.
   */
  predicate Written(w: StateMap, self: StateMap, other: StateMap, count: nat)
  {
    SubMap(w, Missing(self, other)) && |w| == count &&
    (count >= |Missing(self, other)| ==> w == Missing(self, other))
  }

  /**
   * One key of a `missingDifference` loop: a missing pair is recorded, any
   * other key is passed over, and the record stays the missing pairs seen.
   */
  lemma TallyStep(w: StateMap, self: StateMap, other: StateMap, todo: set<Key>, k: Key)
    requires k in todo && todo <= self.Keys
    requires SubMap(w, Missing(self, other)) && w.Keys == Missing(self, other).Keys - todo
    ensures k !in w
    ensures k !in other || other[k] != self[k] ==>
      && SubMap(w[k := self[k]], Missing(self, other))
      && w[k := self[k]].Keys == Missing(self, other).Keys - (todo - {k})
      && |w[k := self[k]]| == |w| + 1
    ensures !(k !in other || other[k] != self[k]) ==> w.Keys == Missing(self, other).Keys - (todo - {k})
  {
  }

  lemma MergeUpdate(base: StateMap, w: StateMap, k: Key, v: Val)
    ensures base + w[k := v] == (base + w)[k := v]
  {
  }

  lemma WrittenFinish(w: StateMap, self: StateMap, other: StateMap, count: nat)
    requires SubMap(w, Missing(self, other)) && |w| == count
    ensures Written(w, self, other, count)
  {
    var miss := Missing(self, other);
    if count >= |miss| {
      SubsetSameSize(w.Keys, miss.Keys);
    }
  }

  /**
   * The loop of `missingDifference(other, difference, stopAt)` on the two
   * maps: the pairs of `self` that `other` lacks, met in the map's iteration
   * order, up to and including the one that makes the count reach `stopAt`.
   * The loop only reads `self` and `other`, so `difference` can receive the
   * pairs once the loop is over.
   */
  method TallyMissing(self: StateMap, other: StateMap, stopAt: int) returns (count: nat, found: StateMap)
    ensures count == BoundedCount(|Missing(self, other)|, stopAt)
    ensures Written(found, self, other, count)
  {
    ghost var miss := Missing(self, other);
    var todo := self.Keys;
    found := map[];
    count := 0;
    while todo != {}
      invariant todo <= self.Keys
      invariant SubMap(found, miss) && found.Keys == miss.Keys - todo
      invariant count == |found|
      invariant count < JavaMath.Max(stopAt, 1)
      decreases todo
    {
      var k :| k in todo;
      TallyStep(found, self, other, todo, k);
      todo := todo - {k};
      if k !in other || other[k] != self[k] {
        found := found[k := self[k]];
        count := count + 1;
        if count >= stopAt {
          break;
        }
      }
    }
    TallyDone(found, self, other, count, stopAt, todo);
  }

  /** Where the tally loop stops: every key seen, or the count at `stopAt` (at least 1). */
  lemma TallyDone(w: StateMap, self: StateMap, other: StateMap, count: nat, stopAt: int, todo: set<Key>)
    requires SubMap(w, Missing(self, other)) && w.Keys == Missing(self, other).Keys - todo && |w| == count
    requires count <= JavaMath.Max(stopAt, 1)
    requires todo == {} || count == JavaMath.Max(stopAt, 1)
    ensures count == BoundedCount(|Missing(self, other)|, stopAt)
    ensures Written(w, self, other, count)
  {
    var miss := Missing(self, other);
    CountBound(w.Keys, miss.Keys);
    WrittenFinish(w, self, other, count);
    if todo == {} {
      assert w.Keys == miss.Keys;
    }
  }

  class State {
    var bufferA: StateMap
    var bufferB: StateMap
    /** Which buffer is the live `values` map. */
    var usingA: bool

    function Values(): StateMap
      reads this
    {
      if usingA then bufferA else bufferB
    }

    /** The buffer that is not live. */
    function Spare(): StateMap
      reads this
    {
      if usingA then bufferB else bufferA
    }

    /**
     * `instantiate(old)`: a state holding a copy of every pair of `old`, or no
     * pair when `old` is null. Pooled objects are modelled as fresh ones.
     */
    constructor Instantiate(source: State?)
      ensures Values() == (if source == null then map[] else source.Values())
      ensures usingA
    {
      bufferA, bufferB, usingA := map[], map[], true;
      new;
      if source != null {
        var src := source.Values();
        var todo := src.Keys;
        while todo != {}
          invariant usingA && todo <= src.Keys
          invariant bufferA == map k | k in src && k !in todo :: src[k]
          decreases todo
        {
          var k :| k in todo;
          bufferA := bufferA[k := src[k]];
          todo := todo - {k};
        }
        assert bufferA == src;
      }
    }

    /** A state object holding exactly `m`, as an action returns for its preconditions or effects. */
    constructor FromMap(m: StateMap)
      ensures Values() == m && usingA
    {
      bufferA, bufferB, usingA := m, map[], true;
    }

    /** `clone()`: a fresh state with the same pairs. */
    method Clone() returns (c: State)
      ensures fresh(c) && c.Values() == Values()
    {
      c := new State.Instantiate(this);
    }

    /** `add(a, b)`: a fresh state holding `a`'s pairs overridden by `b`'s. */
    method Add(a: State, b: State) returns (result: State)
      ensures fresh(result)
      ensures result.Values() == a.Values() + b.Values()
    {
      result := new State.Instantiate(a);
      var src := b.Values();
      var todo := src.Keys;
      while todo != {}
        invariant result.usingA && todo <= src.Keys
        invariant result.bufferA == a.Values() + map k | k in src && k !in todo :: src[k]
        decreases todo
      {
        var k :| k in todo;
        result.bufferA := result.bufferA[k := src[k]];
        todo := todo - {k};
      }
      assert result.bufferA == a.Values() + src;
    }

    /** Writes `value` under `key` in the live buffer. */
    method Set(key: Key, value: Val)
      modifies this
      ensures usingA == old(usingA) && Spare() == old(Spare())
      ensures Values() == old(Values())[key := value]
    {
      if usingA { bufferA := bufferA[key := value]; } else { bufferB := bufferB[key := value]; }
    }

    /** `addFromState(b)`: every pair of `b` is put into this state. */
    method AddFromState(b: State)
      modifies this
      ensures usingA == old(usingA) && Spare() == old(Spare())
      ensures Values() == old(Values()) + old(b.Values())
    {
      PutAll(b.Values());
    }

    /** `values.put(k, v)` for every pair of `src`. */
    method PutAll(src: StateMap)
      modifies this
      ensures usingA == old(usingA) && Spare() == old(Spare())
      ensures Values() == old(Values()) + src
    {
      var todo := src.Keys;
      ghost var start := Values();
      while todo != {}
        invariant usingA == old(usingA) && Spare() == old(Spare())
        invariant todo <= src.Keys
        invariant Values() == start + map k | k in src && k !in todo :: src[k]
        decreases todo
      {
        var k :| k in todo;
        Set(k, src[k]);
        todo := todo - {k};
      }
      assert Values() == start + src;
    }

    /** `getSize()`. */
    function GetSize(): (n: nat)
      reads this
      ensures n == |Values().Keys|
    {
      |Values()|
    }

    /** `hasAny(other)`: some pair of `other` is also a pair of this state. */
    method HasAny(other: State) returns (r: bool)
      ensures r == HasAnySpec(Values(), other.Values())
    {
      var mine, theirs := Values(), other.Values();
      var todo := theirs.Keys;
      while todo != {}
        invariant todo <= theirs.Keys
        invariant forall k :: k in theirs && k !in todo ==> !(k in mine && mine[k] == theirs[k])
        decreases todo
      {
        var k :| k in todo;
        if k in mine && theirs[k] == mine[k] {
          return true;
        }
        todo := todo - {k};
      }
      return false;
    }

    /** `hasAnyConflict(other)`: a shared key with different values. */
    method HasAnyConflict(other: State) returns (r: bool)
      ensures r == ConflictSpec(Values(), other.Values())
    {
      var mine, theirs := Values(), other.Values();
      var todo := theirs.Keys;
      while todo != {}
        invariant todo <= theirs.Keys
        invariant forall k :: k in theirs && k !in todo ==> !(k in mine && theirs[k] != mine[k])
        decreases todo
      {
        var k :| k in todo;
        todo := todo - {k};
        if k !in mine {
          continue;
        }
        if theirs[k] != mine[k] {
          return true;
        }
      }
      return false;
    }

    /**
     * `hasAnyConflict(changes, other)`: a shared key with different values
     * that `changes` does not set to this state's value.
     */
    method HasAnyConflictUnlessChanged(changes: State, other: State) returns (r: bool)
      ensures r == ConflictUnlessChangedSpec(Values(), changes.Values(), other.Values())
    {
      var mine, fixes, theirs := Values(), changes.Values(), other.Values();
      var todo := theirs.Keys;
      while todo != {}
        invariant todo <= theirs.Keys
        invariant forall k :: k in theirs && k !in todo ==>
          !(k in mine && theirs[k] != mine[k] && !(k in fixes && mine[k] == fixes[k]))
        decreases todo
      {
        var k :| k in todo;
        todo := todo - {k};
        if k !in mine {
          continue;
        }
        var excused := k in fixes && mine[k] == fixes[k];
        if theirs[k] != mine[k] && !excused {
          return true;
        }
      }
      return false;
    }

    /**
     * `missingDifference(other, stopAt)`: counts the pairs of this state that
     * `other` lacks, stopping as soon as the count reaches `stopAt`.
     */
    method MissingDifferenceBounded(other: State, stopAt: int) returns (count: nat)
      ensures count == BoundedCount(|Missing(Values(), other.Values())|, stopAt)
    {
      var mine, theirs := Values(), other.Values();
      ghost var miss := Missing(mine, theirs);
      var todo := mine.Keys;
      ghost var seen: set<Key> := {};
      count := 0;
      while todo != {}
        invariant todo <= mine.Keys
        invariant seen == set k | k in miss && k !in todo
        invariant count == |seen|
        invariant count < JavaMath.Max(stopAt, 1)
        decreases todo
      {
        var k :| k in todo;
        todo := todo - {k};
        if k !in theirs || theirs[k] != mine[k] {
          seen := seen + {k};
          count := count + 1;
          if count >= stopAt {
            CountBound(seen, miss.Keys);
            return;
          }
        }
      }
      assert seen == miss.Keys;
    }

    /** `missingDifference(other)`: the number of pairs `other` lacks. */
    method MissingDifference(other: State) returns (count: nat)
      ensures count == JavaMath.Min(|Missing(Values(), other.Values())|, JavaMath.INT_MAX)
      ensures count == 0 <==> SubMap(Values(), other.Values())
    {
      count := MissingDifferenceBounded(other, JavaMath.INT_MAX);
      NoMissingMeansSatisfied(Values(), other.Values());
    }

    /**
     * `missingDifference(other, difference)` as written: the `difference`
     * argument is ignored and only the unbounded count is returned.
     */
    method MissingDifferenceIgnoring(other: State, difference: State) returns (count: nat)
      ensures count == JavaMath.Min(|Missing(Values(), other.Values())|, JavaMath.INT_MAX)
    {
      count := MissingDifference(other);
    }

    /**
     * `missingDifference(other, difference, stopAt)`: as the bounded count, and
     * each counted pair is also put into `difference` when it is not null.
     */
    method MissingDifferenceInto(other: State, difference: State?, stopAt: int) returns (count: nat)
      modifies difference
      ensures count == BoundedCount(|Missing(old(Values()), old(other.Values()))|, stopAt)
      ensures difference != null ==>
        difference.usingA == old(difference.usingA) && difference.Spare() == old(difference.Spare())
      ensures difference != null ==> exists w: StateMap ::
        Written(w, old(Values()), old(other.Values()), count) && difference.Values() == old(difference.Values()) + w
    {
      var found: StateMap;
      count, found := TallyMissing(Values(), other.Values(), stopAt);
      if difference != null {
        difference.PutAll(found);
      }
    }

    /**
     * `replaceWithMissingDifference(other, stopAt)`: the live buffer becomes
     * the other buffer, emptied and filled with (at most `stopAt`) pairs of the
     * previous values that `other` lacks. When `other` is this state, every
     * lookup sees the new buffer, which never holds the key being examined.
     */
    method ReplaceWithMissingDifference(other: State, stopAt: int) returns (count: nat)
      modifies this
      ensures usingA == !old(usingA) && Spare() == old(Values())
      ensures count == |Values()|
      ensures count == BoundedCount(|Missing(old(Values()), if other == this then map[] else old(other.Values()))|, stopAt)
      ensures SubMap(Values(), Missing(old(Values()), if other == this then map[] else old(other.Values())))
    {
      var mine := Values();
      var theirs := if other == this then map[] else other.Values();
      usingA := !usingA;
      if usingA { bufferA := map[]; } else { bufferB := map[]; }
      var found: StateMap;
      count, found := TallyMissing(mine, theirs, stopAt);
      PutAll(found);
    }

    /**
     * `replaceWithMissingDifference(other)`: the bound is `Integer.MAX_VALUE`,
     * so every missing pair is kept unless there are more than that many.
     */
    method ReplaceWithAllMissing(other: State) returns (count: nat)
      modifies this
      ensures usingA == !old(usingA) && Spare() == old(Values())
      ensures count == |Values()|
      ensures SubMap(Values(), Missing(old(Values()), if other == this then map[] else old(other.Values())))
      ensures Fits(old(Values())) ==>
        Values() == Missing(old(Values()), if other == this then map[] else old(other.Values()))
    {
      ghost var miss := Missing(Values(), if other == this then map[] else other.Values());
      CountBound(miss.Keys, Values().Keys);
      count := ReplaceWithMissingDifference(other, JavaMath.INT_MAX);
      if Fits(old(Values())) {
        SubsetSameSize(Values().Keys, miss.Keys);
      }
    }

    /** `get(key)`: the value, or null (`None`) for an absent key. */
    function Get(key: Key): (r: Option<Val>)
      reads this
      ensures r.Some? <==> key in Values()
      ensures r.Some? ==> Values()[key] == r.value
    {
      if key in Values() then Some(Values()[key]) else None
    }

    /** `hasKey(key)`. */
    function HasKey(key: Key): (r: bool)
      reads this
      ensures r <==> Get(key).Some?
    {
      key in Values()
    }

    /** `remove(key)`. */
    method Remove(key: Key)
      modifies this
      ensures usingA == old(usingA) && Spare() == old(Spare())
      ensures Values() == old(Values()) - {key}
    {
      if usingA { bufferA := bufferA - {key}; } else { bufferB := bufferB - {key}; }
    }

    /** `clear()`: empties the live buffer. */
    method Clear()
      modifies this
      ensures usingA == old(usingA) && Spare() == old(Spare())
      ensures Values() == map[]
    {
      if usingA { bufferA := map[]; } else { bufferB := map[]; }
    }
  }

  /** A set strictly inside a finite set is smaller. */
  lemma CountBound(part: set<Key>, whole: set<Key>)
    requires part <= whole
    ensures |part| <= |whole|
  {
    SubsetCard(part, whole);
  }

  lemma {:induction false} SubsetCard(a: set<Key>, b: set<Key>)
    requires a <= b
    ensures |a| <= |b|
    decreases |b|
  {
    if a != {} {
      var x :| x in a;
      SubsetCard(a - {x}, b - {x});
    }
  }

  lemma SubsetSameSize(a: set<Key>, b: set<Key>)
    requires a <= b && |a| >= |b|
    ensures a == b
  {
    if a != b {
      var x :| x in b && x !in a;
      SubsetCard(a, b - {x});
    }
  }

  /**
   * `missingDifference(other, difference)` as written leaves `difference`
   * untouched: for the state {"a": 1} against an empty state nothing is
   * written, while the overload it was evidently meant to call writes the
   * missing pair.
   */
  method IgnoredDifferenceExample() returns (ignored: StateMap, written: StateMap)
    ensures ignored == map[] && written == map["a" := 1]
  {
    var self := new State.FromMap(map["a" := 1]);
    var other := new State.FromMap(map[]);
    assert Missing(self.Values(), other.Values()) == map["a" := 1];
    var d1 := new State.Instantiate(null);
    var _ := self.MissingDifferenceIgnoring(other, d1);
    ignored := d1.Values();
    var d2 := new State.Instantiate(null);
    var count := self.MissingDifferenceInto(other, d2, JavaMath.INT_MAX);
    written := d2.Values();
  }
}
