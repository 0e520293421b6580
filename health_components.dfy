/**
 * `HealthComponents`: shields, the armor grid, per-part hit points with the
 * volume-keyed map of parts that can still be damaged, and a munition's hull
 * hit points.
 *
 * `damageableParts` maps a `Long` key to a bag of part references that all
 * have the same volume; the key is the bag's total volume, so a weapon can
 * pick a bag weighted by volume. `damageablePartsMaxVolume` follows the
 * largest key.
 */
module Health {
  import opened Wrappers
  import JavaMath
  import LongTreeMap

  /** Kotlin's `UByte`. */
  type UByte = x: int | 0 <= x < 0x100

  /** Kotlin's `Short`. */
  type Short = x: int | -0x8000 <= x < 0x8000

  /** A ship part as the health components see it: its volume in cm³ and its `maxHealth`. */
  datatype Part = Part(name: string, volume: int, maxHealth: UByte)

  /** `PartRef`: a part and its index in the hull. It is a data class, so two refs are equal when both fields are. */
  datatype PartRef = PartRef(part: Part, index: int)

  type Bag = seq<PartRef>
  type Entry = LongTreeMap.Entry<Bag>

  /** `damageableParts` together with `damageablePartsMaxVolume`. */
  datatype Damageable = Damageable(parts: seq<Entry>, maxVolume: int)

  /** The exact sum of a sequence. */
  function Sum(xs: seq<int>): int
  {
    if xs == [] then 0 else Sum(xs[..|xs| - 1]) + xs[|xs| - 1]
  }

  /** Changing one element changes the sum by the difference. */
  lemma {:induction false} SumUpdate(xs: seq<int>, i: int, x: int)
    requires 0 <= i < |xs|
    ensures Sum(xs[i := x]) == Sum(xs) - xs[i] + x
  {
    var n := |xs| - 1;
    if i < n {
      assert xs[i := x][..n] == xs[..n][i := x];
      SumUpdate(xs[..n], i, x);
    } else {
      assert xs[i := x][..n] == xs[..n];
    }
  }

  /** The tree map's shape: keys ascending, and no empty bag. */
  ghost predicate Wellformed(m: seq<Entry>)
  {
    LongTreeMap.Sorted(m) && forall e :: e in m ==> e.value != []
  }

  /** A bag of `n` parts of one positive volume, stored under `n` times that volume. */
  ghost predicate Uniform(k: int, b: Bag)
  {
    b != [] && (forall p :: p in b ==> p.part.volume == b[0].part.volume)
      && k == |b| * b[0].part.volume && b[0].part.volume > 0
  }

  /** Each bag holds parts of one volume, and its key is the bag's total volume. */
  ghost predicate Consistent(m: seq<Entry>)
  {
    forall e :: e in m ==> Uniform(e.key, e.value)
  }

  /** `damageablePartsMaxVolume` is the largest key, or 0 when the map is empty. */
  ghost predicate Tracked(d: Damageable)
    requires Wellformed(d.parts)
  {
    d.maxVolume == if d.parts == [] then 0 else LongTreeMap.LastKey(d.parts)
  }

  /** The total of the keys: the damageable volume, when the map is consistent. */
  function Volumes(m: seq<Entry>): int
  {
    if m == [] then 0 else m[0].key + Volumes(m[1..])
  }

  /** Every part reference in the map's bags. */
  function Members(m: seq<Entry>): multiset<PartRef>
  {
    if m == [] then multiset{} else multiset(m[0].value) + Members(m[1..])
  }

  /** From position `i` on, the first entry whose bag holds parts of this volume. */
  function Scan(m: seq<Entry>, volume: int, i: nat): (r: Option<nat>)
    requires Wellformed(m)
    ensures r.Some? ==> i <= r.value < |m| && m[r.value].value[0].part.volume == volume
    ensures forall j :: i <= j < |m| && (r.None? || j < r.value) ==> m[j].value[0].part.volume != volume
    decreases |m| - i
  {
    if i >= |m| then None
    else if m[i].value[0].part.volume == volume then Some(i)
    else Scan(m, volume, i + 1)
  }

  /**
   * `getDamageablePartsEntry(volume)`: from the ceiling of `volume` upward,
   * the first bag of parts of that volume.
   */
  function Locate(m: seq<Entry>, volume: int): Option<nat>
    requires Wellformed(m)
  {
    if |m| == 0 then None else Scan(m, volume, LongTreeMap.Ceiling(m, volume))
  }

  /** The position of the first occurrence of `x`. */
  function FirstIndex(b: Bag, x: PartRef): (i: nat)
    requires x in b
    ensures i < |b| && b[i] == x && x !in b[..i]
  {
    if b[0] == x then 0 else 1 + FirstIndex(b[1..], x)
  }

  /** Artemis `Bag.remove(e)`: the first occurrence is overwritten by the last element and the bag shrinks by one. */
  function BagRemove(b: Bag, x: PartRef): (r: Bag)
    ensures |r| == if x in b then |b| - 1 else |b|
    ensures x !in b ==> r == b
  {
    if x !in b then b
    else
      var i := FirstIndex(b, x);
      if i == |b| - 1 then b[..i] else b[..i] + [b[|b| - 1]] + b[i + 1..|b| - 1]
  }

  /** Removing a present element takes exactly one copy of it out of the bag. */
  lemma BagRemoveContents(b: Bag, x: PartRef)
    requires x in b
    ensures multiset(BagRemove(b, x)) == multiset(b) - multiset{x}
  {
    var i := FirstIndex(b, x);
    var last := |b| - 1;
    var front := b[..i];
    if i == last {
      assert b == front + [x];
      assert BagRemove(b, x) == front;
      SwapOut(front, [], x, []);
    } else {
      var middle, y := b[i + 1..last], b[last];
      assert b == front + [x] + middle + [y];
      assert BagRemove(b, x) == front + [y] + middle;
      SwapOut(front, middle, x, [y]);
    }
  }

  /** Taking `x` out from between `front` and `middle` and moving `tail` into its place removes one `x`. */
  lemma SwapOut(front: Bag, middle: Bag, x: PartRef, tail: Bag)
    ensures multiset(front + tail + middle) == multiset(front + [x] + middle + tail) - multiset{x}
  {
    assert multiset(front + [x] + middle + tail) == multiset(front) + multiset{x} + multiset(middle) + multiset(tail);
    assert multiset(front + tail + middle) == multiset(front) + multiset(tail) + multiset(middle);
  }

  /** `addDamageablePart(ref)`: onto the bag of its volume, whose key grows by the volume, or into a new bag. */
  function Add(d: Damageable, ref: PartRef): (r: Damageable)
    requires Wellformed(d.parts)
    ensures Wellformed(r.parts)
  {
    var v := ref.part.volume;
    var at := Locate(d.parts, v);
    if at.Some? then
      var e := d.parts[at.value];
      var key := e.key + v;
      var rest := LongTreeMap.Remove(d.parts, e.key);
      RemoveWellformed(d.parts, e.key);
      PutWellformed(rest, key, e.value + [ref]);
      Damageable(LongTreeMap.Put(rest, key, e.value + [ref]),
                 if key > d.maxVolume then key else d.maxVolume)
    else
      PutWellformed(d.parts, v, [ref]);
      Damageable(LongTreeMap.Put(d.parts, v, [ref]), if v > d.maxVolume then v else d.maxVolume)
  }

  /** Removing a key keeps the map well formed. */
  lemma RemoveWellformed(m: seq<Entry>, k: int)
    requires Wellformed(m)
    ensures Wellformed(LongTreeMap.Remove(m, k))
  {
    LongTreeMap.RemoveMembers(m, k);
  }

  /** Putting a non-empty bag keeps the map well formed. */
  lemma PutWellformed(m: seq<Entry>, k: int, b: Bag)
    requires Wellformed(m) && b != []
    ensures Wellformed(LongTreeMap.Put(m, k, b))
  {
    LongTreeMap.PutMembers(m, k, b);
  }

  /**
   * The removal branch of `setPartHP`: the entry at `at` is taken out; a bag
   * of one part is dropped, a larger bag loses the part and goes back under
   * its key less the part's volume.
   */
  function Drop(d: Damageable, ref: PartRef, at: nat): (r: Damageable)
    requires Wellformed(d.parts) && at < |d.parts|
    ensures Wellformed(r.parts)
  {
    var v := ref.part.volume;
    var e := d.parts[at];
    var rest := LongTreeMap.Remove(d.parts, e.key);
    LongTreeMap.RemoveMembers(d.parts, e.key);
    if |e.value| == 1 then
      Damageable(rest, if rest == [] then 0 else if v == d.maxVolume then LongTreeMap.LastKey(rest) else d.maxVolume)
    else
      var key := e.key - v;
      var m := LongTreeMap.Put(rest, key, BagRemove(e.value, ref));
      LongTreeMap.PutMembers(rest, key, BagRemove(e.value, ref));
      Damageable(m, if d.maxVolume >= key then LongTreeMap.LastKey(m) else d.maxVolume)
  }

  /** The key `Add` stores the part's bag under. */
  function AddKey(d: Damageable, ref: PartRef): int
    requires Wellformed(d.parts)
  {
    var at := Locate(d.parts, ref.part.volume);
    if at.Some? then d.parts[at.value].key + ref.part.volume else ref.part.volume
  }

  /** No other bag already sits under the key `Add` writes. */
  ghost predicate AddFree(d: Damageable, ref: PartRef)
    requires Wellformed(d.parts)
  {
    var at := Locate(d.parts, ref.part.volume);
    forall i :: 0 <= i < |d.parts| && (at.None? || i != at.value) ==> d.parts[i].key != AddKey(d, ref)
  }

  /** No other bag already sits under the key `Drop` writes back. */
  ghost predicate DropFree(d: Damageable, ref: PartRef, at: nat)
    requires Wellformed(d.parts) && at < |d.parts|
  {
    forall i :: 0 <= i < |d.parts| && i != at ==> d.parts[i].key != d.parts[at].key - ref.part.volume
  }

  /** Removing a present key takes its volume and its bag out of the totals. */
  lemma {:induction false} RemoveTotals(m: seq<Entry>, i: nat)
    requires LongTreeMap.Sorted(m) && i < |m|
    ensures Volumes(LongTreeMap.Remove(m, m[i].key)) == Volumes(m) - m[i].key
    ensures Members(LongTreeMap.Remove(m, m[i].key)) + multiset(m[i].value) == Members(m)
  {
    var k := m[i].key;
    if m[0].key != k {
      assert m[1..][i - 1] == m[i];
      RemoveTotals(m[1..], i - 1);
      var r := LongTreeMap.Remove(m[1..], k);
      assert ([m[0]] + r)[1..] == r;
    }
  }

  /** Putting a fresh key adds its volume and its bag to the totals. */
  lemma {:induction false} PutTotals(m: seq<Entry>, k: int, b: Bag)
    requires LongTreeMap.Sorted(m)
    requires forall j :: 0 <= j < |m| ==> m[j].key != k
    ensures Volumes(LongTreeMap.Put(m, k, b)) == Volumes(m) + k
    ensures Members(LongTreeMap.Put(m, k, b)) == Members(m) + multiset(b)
  {
    if m == [] {
    } else if k < m[0].key {
      assert ([LongTreeMap.Entry(k, b)] + m)[1..] == m;
    } else {
      assert k != m[0].key;
      PutTotals(m[1..], k, b);
      var r := LongTreeMap.Put(m[1..], k, b);
      assert ([m[0]] + r)[1..] == r;
    }
  }

  /** The entries left after a removal are entries of the map at other positions. */
  lemma KeyFreeAfterRemove(m: seq<Entry>, at: nat, k: int)
    requires LongTreeMap.Sorted(m) && at < |m|
    requires forall i :: 0 <= i < |m| && i != at ==> m[i].key != k
    ensures forall j :: 0 <= j < |LongTreeMap.Remove(m, m[at].key)| ==> LongTreeMap.Remove(m, m[at].key)[j].key != k
  {
    var rest := LongTreeMap.Remove(m, m[at].key);
    LongTreeMap.RemoveMembers(m, m[at].key);
    forall j | 0 <= j < |rest|
      ensures rest[j].key != k
    {
      assert rest[j] in m;
      var i :| 0 <= i < |m| && m[i] == rest[j];
    }
  }

  /** Replacing the entry at `at` by a bag under a key no other entry has moves the totals by the difference. */
  lemma ReplaceTotals(m: seq<Entry>, at: nat, k: int, b: Bag)
    requires LongTreeMap.Sorted(m) && at < |m|
    requires forall i :: 0 <= i < |m| && i != at ==> m[i].key != k
    ensures Volumes(LongTreeMap.Put(LongTreeMap.Remove(m, m[at].key), k, b)) == Volumes(m) - m[at].key + k
    ensures Members(LongTreeMap.Put(LongTreeMap.Remove(m, m[at].key), k, b)) + multiset(m[at].value)
            == Members(m) + multiset(b)
  {
    RemoveTotals(m, at);
    KeyFreeAfterRemove(m, at, k);
    PutTotals(LongTreeMap.Remove(m, m[at].key), k, b);
  }

  /** The map `Add` leaves when a bag of the part's volume exists. */
  lemma AddToBag(d: Damageable, ref: PartRef, at: nat)
    requires Wellformed(d.parts) && Locate(d.parts, ref.part.volume) == Some(at)
    ensures Add(d, ref).parts
      == LongTreeMap.Put(LongTreeMap.Remove(d.parts, d.parts[at].key), d.parts[at].key + ref.part.volume, d.parts[at].value + [ref])
  {
  }

  /** The map `Add` leaves when no bag of the part's volume exists. */
  lemma AddNewBag(d: Damageable, ref: PartRef)
    requires Wellformed(d.parts) && Locate(d.parts, ref.part.volume).None?
    ensures Add(d, ref).parts == LongTreeMap.Put(d.parts, ref.part.volume, [ref])
  {
  }

  /** The map `Drop` leaves when the part is alone in its bag. */
  lemma DropBag(d: Damageable, ref: PartRef, at: nat)
    requires Wellformed(d.parts) && at < |d.parts| && |d.parts[at].value| == 1
    ensures Drop(d, ref, at).parts == LongTreeMap.Remove(d.parts, d.parts[at].key)
  {
  }

  /** The map `Drop` leaves when the bag keeps other parts. */
  lemma DropFromBag(d: Damageable, ref: PartRef, at: nat)
    requires Wellformed(d.parts) && at < |d.parts| && |d.parts[at].value| != 1
    ensures Drop(d, ref, at).parts
      == LongTreeMap.Put(LongTreeMap.Remove(d.parts, d.parts[at].key), d.parts[at].key - ref.part.volume, BagRemove(d.parts[at].value, ref))
  {
  }

  /** Cancelling a bag that occurs on both sides of a multiset equation. */
  lemma CancelBag(x: multiset<PartRef>, y: multiset<PartRef>, b: multiset<PartRef>)
    requires x + b == y + b
    ensures x == y
  {
    assert forall p :: x[p] == (x + b)[p] - b[p];
    assert forall p :: y[p] == (y + b)[p] - b[p];
  }

  /** Cancelling a bag against the same bag less one element leaves that element. */
  lemma CancelOne(x: multiset<PartRef>, y: multiset<PartRef>, w: multiset<PartRef>, r: PartRef)
    requires x + w == y + (w - multiset{r}) && r in w
    ensures x + multiset{r} == y
  {
    forall p
      ensures (x + multiset{r})[p] == y[p]
    {
      assert (x + w)[p] == (y + (w - multiset{r}))[p];
    }
  }

  /** Adding a part whose key is free grows the damageable volume by its volume and the members by the ref. */
  lemma AddGrows(d: Damageable, ref: PartRef)
    requires Wellformed(d.parts) && AddFree(d, ref)
    ensures Volumes(Add(d, ref).parts) == Volumes(d.parts) + ref.part.volume
    ensures Members(Add(d, ref).parts) == Members(d.parts) + multiset{ref}
  {
    var v := ref.part.volume;
    var at := Locate(d.parts, v);
    if at.Some? {
      var e := d.parts[at.value];
      AddToBag(d, ref, at.value);
      assert AddKey(d, ref) == e.key + v;
      ReplaceTotals(d.parts, at.value, e.key + v, e.value + [ref]);
      var b := multiset(e.value);
      assert multiset(e.value + [ref]) == b + multiset{ref};
      CancelBag(Members(Add(d, ref).parts), Members(d.parts) + multiset{ref}, b);
    } else {
      AddNewBag(d, ref);
      PutTotals(d.parts, v, [ref]);
    }
  }

  /** Dropping a part that shares its bag shrinks that bag's key by the part's volume. */
  lemma DropFromBagVolume(d: Damageable, ref: PartRef, at: nat)
    requires Wellformed(d.parts) && at < |d.parts| && |d.parts[at].value| != 1 && DropFree(d, ref, at)
    ensures Volumes(Drop(d, ref, at).parts) == Volumes(d.parts) - ref.part.volume
  {
    var e := d.parts[at];
    var v := ref.part.volume;
    var left := Drop(d, ref, at).parts;
    DropFromBag(d, ref, at);
    ReplaceTotals(d.parts, at, e.key - v, BagRemove(e.value, ref));
    var vl, vd := Volumes(left), Volumes(d.parts);
    assert vl == vd - e.key + (e.key - v);
  }

  /** Dropping a part that shares its bag takes exactly that ref out of the members. */
  lemma DropFromBagMembers(d: Damageable, ref: PartRef, at: nat)
    requires Wellformed(d.parts) && at < |d.parts| && |d.parts[at].value| != 1
    requires ref in d.parts[at].value && DropFree(d, ref, at)
    ensures Members(Drop(d, ref, at).parts) + multiset{ref} == Members(d.parts)
  {
    var e := d.parts[at];
    var v := ref.part.volume;
    var smaller := BagRemove(e.value, ref);
    var left := LongTreeMap.Put(LongTreeMap.Remove(d.parts, e.key), e.key - v, smaller);
    assert Drop(d, ref, at).parts == left by {
      DropFromBag(d, ref, at);
    }
    assert Members(left) + multiset(e.value) == Members(d.parts) + multiset(smaller) by {
      ReplaceTotals(d.parts, at, e.key - v, smaller);
    }
    assert multiset(smaller) == multiset(e.value) - multiset{ref} by {
      BagRemoveContents(e.value, ref);
    }
    CancelOne(Members(left), Members(d.parts), multiset(e.value), ref);
  }

  /** Dropping a tracked part whose key is free shrinks the damageable volume by its volume and the members by the ref. */
  lemma DropShrinks(d: Damageable, ref: PartRef, at: nat)
    requires Wellformed(d.parts) && Consistent(d.parts) && at < |d.parts|
    requires ref in d.parts[at].value && DropFree(d, ref, at)
    ensures Volumes(Drop(d, ref, at).parts) == Volumes(d.parts) - ref.part.volume
    ensures Members(Drop(d, ref, at).parts) + multiset{ref} == Members(d.parts)
  {
    var e := d.parts[at];
    if |e.value| == 1 {
      DropBag(d, ref, at);
      RemoveTotals(d.parts, at);
      assert e.value == [ref];
      assert e in d.parts;
      assert multiset(e.value) == multiset{ref};
    } else {
      DropFromBagVolume(d, ref, at);
      DropFromBagMembers(d, ref, at);
    }
  }

  /** Putting a bag under any key, taken or free, leaves at most the old members and the bag. */
  lemma {:induction false} PutWithin(m: seq<Entry>, k: int, b: Bag)
    requires LongTreeMap.Sorted(m)
    ensures Members(LongTreeMap.Put(m, k, b)) <= Members(m) + multiset(b)
  {
    if m == [] {
    } else if k < m[0].key {
      assert ([LongTreeMap.Entry(k, b)] + m)[1..] == m;
    } else if k == m[0].key {
      assert ([LongTreeMap.Entry(k, b)] + m[1..])[1..] == m[1..];
    } else {
      PutWithin(m[1..], k, b);
      var r := LongTreeMap.Put(m[1..], k, b);
      assert ([m[0]] + r)[1..] == r;
    }
  }

  /**
   * Dropping a listed part takes one copy of it out of the members; when
   * its bag is re-filed under a taken key, other parts may be lost too, but
   * none is gained.
   */
  lemma DropWithin(d: Damageable, ref: PartRef, at: nat)
    requires Wellformed(d.parts) && at < |d.parts| && ref in d.parts[at].value
    ensures Members(Drop(d, ref, at).parts) <= Members(d.parts) - multiset{ref}
  {
    var e := d.parts[at];
    var rest := LongTreeMap.Remove(d.parts, e.key);
    RemoveTotals(d.parts, at);
    if |e.value| == 1 {
      DropBag(d, ref, at);
      assert e.value == [ref];
    } else {
      var smaller := BagRemove(e.value, ref);
      DropFromBag(d, ref, at);
      PutWithin(rest, e.key - ref.part.volume, smaller);
      BagRemoveContents(e.value, ref);
      WithinLess(Members(Drop(d, ref, at).parts), Members(rest), multiset(e.value), Members(d.parts), ref);
    }
  }

  /** What lies within the rest and a bag less one part lies within the whole less that part. */
  lemma WithinLess(left: multiset<PartRef>, rest: multiset<PartRef>, b: multiset<PartRef>, whole: multiset<PartRef>,
                   ref: PartRef)
    requires left <= rest + (b - multiset{ref}) && rest + b == whole && ref in b
    ensures left <= whole - multiset{ref}
  {
    forall p
      ensures left[p] <= (whole - multiset{ref})[p]
    {
      assert left[p] <= (rest + (b - multiset{ref}))[p];
      assert (rest + b)[p] == whole[p];
    }
  }

  /** Every part in a bag of the map is one of its members. */
  lemma {:induction false} MemberOfBag(m: seq<Entry>, at: nat, p: PartRef)
    requires at < |m| && p in m[at].value
    ensures p in Members(m)
  {
    if at > 0 {
      assert m[1..][at - 1] == m[at];
      MemberOfBag(m[1..], at - 1, p);
    }
  }

  /** A cell never exceeds the sum of the cells. */
  lemma {:induction false} SumAtLeast(xs: seq<UByte>, i: nat)
    requires i < |xs|
    ensures Sum(xs) >= xs[i]
  {
    var n := |xs| - 1;
    SumCapped(xs[..n], 0xFF);
    if i < n {
      assert xs[..n][i] == xs[i];
      SumAtLeast(xs[..n], i);
    }
  }

  /** Removing a key keeps the map well formed and consistent. */
  lemma RemoveConsistent(m: seq<Entry>, k: int)
    requires Wellformed(m) && Consistent(m)
    ensures Wellformed(LongTreeMap.Remove(m, k)) && Consistent(LongTreeMap.Remove(m, k))
  {
    LongTreeMap.RemoveMembers(m, k);
  }

  /** Putting a uniform bag keeps the map well formed and consistent. */
  lemma PutConsistent(m: seq<Entry>, k: int, b: Bag)
    requires Wellformed(m) && Consistent(m) && Uniform(k, b)
    ensures Wellformed(LongTreeMap.Put(m, k, b)) && Consistent(LongTreeMap.Put(m, k, b))
  {
    PutWellformed(m, k, b);
    LongTreeMap.PutMembers(m, k, b);
    forall e | e in LongTreeMap.Put(m, k, b) ensures Uniform(e.key, e.value) {
      if e != LongTreeMap.Entry(k, b) {
        assert e in m;
      }
    }
  }

  /** Replacing a bag by a uniform one keeps the map well formed and consistent. */
  lemma ReplaceConsistent(m: seq<Entry>, old_key: int, k: int, b: Bag)
    requires Wellformed(m) && Consistent(m) && Uniform(k, b)
    ensures Consistent(LongTreeMap.Put(LongTreeMap.Remove(m, old_key), k, b))
  {
    RemoveConsistent(m, old_key);
    PutConsistent(LongTreeMap.Remove(m, old_key), k, b);
  }

  /** Appending a part of the bag's volume keeps the bag uniform under its grown key. */
  lemma GrownUniform(k: int, b: Bag, ref: PartRef)
    requires Uniform(k, b) && ref.part.volume == b[0].part.volume
    ensures Uniform(k + ref.part.volume, b + [ref])
  {
    var v, n := ref.part.volume, |b|;
    assert k == n * v;
    assert (n + 1) * v == n * v + v;
    assert (b + [ref])[0] == b[0];
    forall p | p in b + [ref]
      ensures p.part.volume == v
    {
      if p != ref {
        assert p in b;
      }
    }
  }

  /** What holds of the replaced map holds of the map `Add` leaves. */
  lemma AddToBagKeeps(d: Damageable, ref: PartRef, at: nat)
    requires Wellformed(d.parts) && Locate(d.parts, ref.part.volume) == Some(at)
    requires Consistent(LongTreeMap.Put(LongTreeMap.Remove(d.parts, d.parts[at].key),
                                        d.parts[at].key + ref.part.volume, d.parts[at].value + [ref]))
    ensures Consistent(Add(d, ref).parts)
  {
    AddToBag(d, ref, at);
  }

  /** `addDamageablePart` keeps every bag of one volume under its total volume. */
  lemma AddConsistent(d: Damageable, ref: PartRef)
    requires Wellformed(d.parts) && Consistent(d.parts) && ref.part.volume > 0
    ensures Consistent(Add(d, ref).parts)
  {
    var v := ref.part.volume;
    var at := Locate(d.parts, v);
    if at.Some? {
      var e := d.parts[at.value];
      assert e in d.parts;
      GrownUniform(e.key, e.value, ref);
      ReplaceConsistent(d.parts, e.key, e.key + v, e.value + [ref]);
      AddToBagKeeps(d, ref, at.value);
    } else {
      AddNewBag(d, ref);
      assert Uniform(v, [ref]);
      PutConsistent(d.parts, v, [ref]);
    }
  }

  /** Moving an entry to a larger key makes the largest key the larger of that key and the old largest. */
  lemma RaisedLastKey(m: seq<Entry>, at: nat, k: int, b: Bag)
    requires LongTreeMap.Sorted(m) && at < |m| && k > m[at].key
    ensures LongTreeMap.LastKey(LongTreeMap.Put(LongTreeMap.Remove(m, m[at].key), k, b))
            == if k > LongTreeMap.LastKey(m) then k else LongTreeMap.LastKey(m)
  {
    var rest := LongTreeMap.Remove(m, m[at].key);
    LongTreeMap.LastKeyOfPut(rest, k, b);
    if m[at].key == LongTreeMap.LastKey(m) {
      LongTreeMap.RemoveLast(m);
      if rest != [] {
        assert rest[|rest| - 1] == m[|m| - 2];
      }
    } else {
      LongTreeMap.LastKeyOfRemove(m, m[at].key);
    }
  }

  /** `Add`'s new maximum, when it grows an existing bag. */
  lemma AddToBagTracked(d: Damageable, ref: PartRef, at: nat)
    requires Wellformed(d.parts) && Tracked(d) && Locate(d.parts, ref.part.volume) == Some(at) && ref.part.volume > 0
    ensures Tracked(Add(d, ref))
  {
    var e := d.parts[at];
    var key := e.key + ref.part.volume;
    var grown := LongTreeMap.Put(LongTreeMap.Remove(d.parts, e.key), key, e.value + [ref]);
    assert Add(d, ref) == Damageable(grown, if key > d.maxVolume then key else d.maxVolume);
    assert LongTreeMap.LastKey(grown) == if key > d.maxVolume then key else d.maxVolume by {
      RaisedLastKey(d.parts, at, key, e.value + [ref]);
    }
  }

  /** `Add`'s new maximum, when it starts a bag. */
  lemma AddNewBagTracked(d: Damageable, ref: PartRef)
    requires Wellformed(d.parts) && Tracked(d) && Locate(d.parts, ref.part.volume).None? && ref.part.volume > 0
    ensures Tracked(Add(d, ref))
  {
    AddNewBag(d, ref);
    LongTreeMap.LastKeyOfPut(d.parts, ref.part.volume, [ref]);
  }

  /** `addDamageablePart` keeps `damageablePartsMaxVolume` at the largest key. */
  lemma AddTracked(d: Damageable, ref: PartRef)
    requires Wellformed(d.parts) && Tracked(d) && ref.part.volume > 0
    ensures Tracked(Add(d, ref))
  {
    var at := Locate(d.parts, ref.part.volume);
    if at.Some? {
      AddToBagTracked(d, ref, at.value);
    } else {
      AddNewBagTracked(d, ref);
    }
  }

  /** Every ref left by `BagRemove` was in the bag. */
  lemma BagRemoveWithin(b: Bag, x: PartRef)
    requires x in b
    ensures forall p :: p in BagRemove(b, x) ==> p in b
  {
    BagRemoveContents(b, x);
    forall p | p in BagRemove(b, x)
      ensures p in b
    {
      assert p in multiset(BagRemove(b, x));
    }
  }

  /** Taking a member out of a bag of several keeps it uniform under its shrunk key. */
  lemma ShrunkUniform(k: int, b: Bag, ref: PartRef)
    requires Uniform(k, b) && ref in b && |b| != 1
    ensures Uniform(k - ref.part.volume, BagRemove(b, ref))
  {
    var v := ref.part.volume;
    var smaller := BagRemove(b, ref);
    var n := |b|;
    assert v == b[0].part.volume && k == n * v && |smaller| == n - 1;
    assert forall p :: p in smaller ==> p.part.volume == v by {
      BagRemoveWithin(b, ref);
    }
    assert smaller[0] in smaller;
    assert k - v == (n - 1) * v by {
      JavaMath.OneFewer(n, v);
    }
  }

  /** What holds of the map after the removal holds of the map `Drop` leaves. */
  lemma DropBagKeeps(d: Damageable, ref: PartRef, at: nat)
    requires Wellformed(d.parts) && at < |d.parts| && |d.parts[at].value| == 1
    requires Consistent(LongTreeMap.Remove(d.parts, d.parts[at].key))
    ensures Consistent(Drop(d, ref, at).parts)
  {
    DropBag(d, ref, at);
  }

  /** What holds of the replaced map holds of the map `Drop` leaves. */
  lemma DropFromBagKeeps(d: Damageable, ref: PartRef, at: nat)
    requires Wellformed(d.parts) && at < |d.parts| && |d.parts[at].value| != 1
    requires Consistent(LongTreeMap.Put(LongTreeMap.Remove(d.parts, d.parts[at].key),
                                        d.parts[at].key - ref.part.volume, BagRemove(d.parts[at].value, ref)))
    ensures Consistent(Drop(d, ref, at).parts)
  {
    DropFromBag(d, ref, at);
  }

  /** The removal branch of `setPartHP` keeps every bag of one volume under its total volume. */
  lemma DropConsistent(d: Damageable, ref: PartRef, at: nat)
    requires Wellformed(d.parts) && Consistent(d.parts) && at < |d.parts| && ref in d.parts[at].value
    ensures Consistent(Drop(d, ref, at).parts)
  {
    var e := d.parts[at];
    if |e.value| == 1 {
      RemoveConsistent(d.parts, e.key);
      DropBagKeeps(d, ref, at);
    } else {
      assert e in d.parts;
      ShrunkUniform(e.key, e.value, ref);
      ReplaceConsistent(d.parts, e.key, e.key - ref.part.volume, BagRemove(e.value, ref));
      DropFromBagKeeps(d, ref, at);
    }
  }

  /** Dropping a whole bag keeps the tracked maximum. */
  lemma DropBagTracked(d: Damageable, ref: PartRef, at: nat)
    requires Wellformed(d.parts) && Tracked(d) && at < |d.parts| && d.parts[at].value == [ref]
    requires d.parts[at].key == ref.part.volume
    ensures Tracked(Drop(d, ref, at))
  {
    DropBag(d, ref, at);
    if d.parts[at].key != LongTreeMap.LastKey(d.parts) {
      LongTreeMap.LastKeyOfRemove(d.parts, d.parts[at].key);
    }
  }

  /** Shrinking a bag keeps the tracked maximum. */
  lemma DropFromBagTracked(d: Damageable, ref: PartRef, at: nat)
    requires Wellformed(d.parts) && Tracked(d) && at < |d.parts| && |d.parts[at].value| != 1
    requires ref.part.volume > 0
    ensures Tracked(Drop(d, ref, at))
  {
    DropFromBag(d, ref, at);
    assert d.parts[at] in d.parts;
  }

  /** The removal branch of `setPartHP` keeps `damageablePartsMaxVolume` at the largest key. */
  lemma DropTracked(d: Damageable, ref: PartRef, at: nat)
    requires Wellformed(d.parts) && Consistent(d.parts) && Tracked(d)
    requires at < |d.parts| && ref in d.parts[at].value
    ensures Tracked(Drop(d, ref, at))
  {
    var e := d.parts[at];
    assert e in d.parts && Uniform(e.key, e.value);
    if |e.value| == 1 {
      assert e.value == [ref];
      DropBagTracked(d, ref, at);
    } else {
      DropFromBagTracked(d, ref, at);
    }
  }

  /** A bag of two 5 cm³ parts already sits under key 10, where a new 10 cm³ part's bag goes. */
  lemma AddCollisionLosesParts()
    ensures var a, b := PartRef(Part("a", 5, 1), 0), PartRef(Part("b", 5, 1), 1);
      var c := PartRef(Part("c", 10, 1), 2);
      var d := Damageable([LongTreeMap.Entry(10, [a, b])], 10);
      Wellformed(d.parts) && Consistent(d.parts) && Tracked(d) && !AddFree(d, c)
      && Members(Add(d, c).parts) == multiset{c} && Volumes(Add(d, c).parts) == 10
  {
    var a, b := PartRef(Part("a", 5, 1), 0), PartRef(Part("b", 5, 1), 1);
    var c := PartRef(Part("c", 10, 1), 2);
    var d := Damageable([LongTreeMap.Entry(10, [a, b])], 10);
    assert Uniform(10, [a, b]);
    assert LongTreeMap.Ceiling(d.parts, 10) == 0;
    assert Scan(d.parts, 10, 1) == None;
    assert Locate(d.parts, 10) == None;
    assert Add(d, c).parts == [LongTreeMap.Entry(10, [c])];
  }

  /**
   * `addDamageablePart` as evidently intended: where the key the part's bag
   * is written under already holds a bag, the two bags are merged rather
   * than the older one being overwritten.
   */
  function AddIntended(d: Damageable, ref: PartRef): (r: Damageable)
    requires Wellformed(d.parts)
    ensures Wellformed(r.parts)
  {
    var at := Locate(d.parts, ref.part.volume);
    var rest := if at.Some? then LongTreeMap.Remove(d.parts, d.parts[at.value].key) else d.parts;
    RemoveWellformedIf(d.parts, at);
    var key := AddKey(d, ref);
    var bag := if at.Some? then d.parts[at.value].value + [ref] else [ref];
    var merged := match LongTreeMap.Get(rest, key) case Some(b) => b + bag case None => bag;
    PutWellformed(rest, key, merged);
    Damageable(LongTreeMap.Put(rest, key, merged), if key > d.maxVolume then key else d.maxVolume)
  }

  /** The map left once the bag `Add` extends, if any, is taken out. */
  lemma RemoveWellformedIf(m: seq<Entry>, at: Option<nat>)
    requires Wellformed(m) && (at.Some? ==> at.value < |m|)
    ensures at.Some? ==> Wellformed(LongTreeMap.Remove(m, m[at.value].key))
  {
    if at.Some? {
      RemoveWellformed(m, m[at.value].key);
    }
  }

  /** Putting a bag over the one stored under a present key keeps the volumes and swaps the bags. */
  lemma {:induction false} PutOverTotals(m: seq<Entry>, k: int, b: Bag, j: nat)
    requires LongTreeMap.Sorted(m) && j < |m| && m[j].key == k
    ensures Volumes(LongTreeMap.Put(m, k, b)) == Volumes(m)
    ensures Members(LongTreeMap.Put(m, k, b)) + multiset(m[j].value) == Members(m) + multiset(b)
  {
    var p := LongTreeMap.Put(m, k, b);
    if j == 0 {
      assert p == [LongTreeMap.Entry(k, b)] + m[1..];
      assert p[1..] == m[1..];
      assert Volumes(p) == k + Volumes(m[1..]);
      assert Members(p) == multiset(b) + Members(m[1..]);
    } else {
      assert m[0].key < m[j].key;
      var r := LongTreeMap.Put(m[1..], k, b);
      assert p == [m[0]] + r;
      assert p[1..] == r;
      assert m[1..][j - 1] == m[j];
      PutOverTotals(m[1..], k, b, j - 1);
      assert Members(r) + multiset(m[j].value) == Members(m[1..]) + multiset(b);
      assert Members(p) == multiset(m[0].value) + Members(r);
      assert Members(m) == multiset(m[0].value) + Members(m[1..]);
      calc {
        Members(p) + multiset(m[j].value);
        multiset(m[0].value) + (Members(r) + multiset(m[j].value));
        multiset(m[0].value) + (Members(m[1..]) + multiset(b));
        Members(m) + multiset(b);
      }
    }
  }

  /** Putting `b` merged with whatever is stored under `k` adds exactly `b`'s parts. */
  lemma MergeTotals(m: seq<Entry>, k: int, b: Bag)
    requires LongTreeMap.Sorted(m)
    ensures var merged := match LongTreeMap.Get(m, k) case Some(prev) => prev + b case None => b;
      Members(LongTreeMap.Put(m, k, merged)) == Members(m) + multiset(b)
  {
    match LongTreeMap.Get(m, k)
    case None =>
      PutTotals(m, k, b);
    case Some(o) =>
      var j :| 0 <= j < |m| && m[j].key == k;
      assert m[j].value == o;
      PutOverTotals(m, k, o + b, j);
      assert multiset(o + b) == multiset(o) + multiset(b);
      CancelBag(Members(LongTreeMap.Put(m, k, o + b)), Members(m) + multiset(b), multiset(o));
  }

  /** The intended add never loses a part: the members gain exactly the new part, whatever keys are taken. */
  lemma AddIntendedKeepsParts(d: Damageable, ref: PartRef)
    requires Wellformed(d.parts)
    ensures Members(AddIntended(d, ref).parts) == Members(d.parts) + multiset{ref}
  {
    var at := Locate(d.parts, ref.part.volume);
    var key := AddKey(d, ref);
    if at.Some? {
      var e := d.parts[at.value];
      var rest := LongTreeMap.Remove(d.parts, e.key);
      RemoveTotals(d.parts, at.value);
      MergeTotals(rest, key, e.value + [ref]);
      assert multiset(e.value + [ref]) == multiset(e.value) + multiset{ref};
    } else {
      MergeTotals(d.parts, key, [ref]);
    }
  }

  /** Where the key is free the intended add is the add as written, so the damageable volume grows by the part's. */
  lemma AddIntendedAgrees(d: Damageable, ref: PartRef)
    requires Wellformed(d.parts) && AddFree(d, ref)
    ensures AddIntended(d, ref) == Add(d, ref)
    ensures Volumes(AddIntended(d, ref).parts) == Volumes(d.parts) + ref.part.volume
  {
    var at := Locate(d.parts, ref.part.volume);
    var key := AddKey(d, ref);
    if at.Some? {
      KeyFreeAfterRemove(d.parts, at.value, key);
      assert LongTreeMap.Get(LongTreeMap.Remove(d.parts, d.parts[at.value].key), key).None?;
    } else {
      assert LongTreeMap.Get(d.parts, key).None?;
    }
    AddGrows(d, ref);
  }

  /** Every ref of `refs`, added in order. */
  function AddAll(d: Damageable, refs: seq<PartRef>): (r: Damageable)
    requires Wellformed(d.parts)
    ensures Wellformed(r.parts)
  {
    if refs == [] then d else Add(AddAll(d, refs[..|refs| - 1]), refs[|refs| - 1])
  }

  /** `set(hull)` on parts of positive volume keeps each bag uniform and the tracked maximum. */
  lemma {:induction false} AddAllKeepsShape(d: Damageable, refs: seq<PartRef>)
    requires Wellformed(d.parts) && Consistent(d.parts) && Tracked(d)
    requires forall i :: 0 <= i < |refs| ==> refs[i].part.volume > 0
    ensures Consistent(AddAll(d, refs).parts) && Tracked(AddAll(d, refs))
  {
    if refs != [] {
      var front := refs[..|refs| - 1];
      AddAllKeepsShape(d, front);
      AddConsistent(AddAll(d, front), refs[|refs| - 1]);
      AddTracked(AddAll(d, front), refs[|refs| - 1]);
    }
  }

  /** The `maxHealth` of each referenced part, in order. */
  function MaxHealths(refs: seq<PartRef>): (r: seq<UByte>)
    ensures |r| == |refs| && forall i :: 0 <= i < |refs| ==> r[i] == refs[i].part.maxHealth
  {
    seq(|refs|, i requires 0 <= i < |refs| => refs[i].part.maxHealth)
  }

  /** Fewer than 2^23 parts keep the sum of their unsigned-byte health inside an `Int`. */
  lemma TotalFitsInt(cells: seq<UByte>)
    requires |cells| < 0x80_0000
    ensures JavaMath.Wrap32(Sum(cells)) == Sum(cells)
  {
    SumCapped(cells, 255);
    JavaMath.Wrap32Identity(Sum(cells));
  }

  /** `ShieldComponent`: the shield hit points of a ship. */
  class ShieldComponent {
    var shieldHP: int

    constructor ()
      ensures shieldHP == 0
    {
      shieldHP := 0;
    }

    /**
     * `set(hull, partStates)`: the `Long` sum of the charges of the hull's
     * shields, given in hull order. The sum is returned, not stored.
     */
    method Set(charges: seq<int>) returns (r: Result<int>)
      ensures charges == [] <==> r == Err(InvalidParameter)
      ensures charges != [] ==> r == Ok(JavaMath.Wrap64(Sum(charges)))
    {
      if charges == [] {
        return Err(InvalidParameter);
      }
      var total := 0;
      var i := 0;
      while i < |charges|
        invariant 0 <= i <= |charges|
        invariant total == JavaMath.Wrap64(Sum(charges[..i]))
      {
        assert charges[..i + 1][..i] == charges[..i];
        JavaMath.Wrap64Sum(Sum(charges[..i]), charges[i]);
        total := JavaMath.Wrap64(total + charges[i]);
        i := i + 1;
      }
      assert charges[..i] == charges;
      return Ok(total);
    }

    method Copy(tc: ShieldComponent)
      modifies tc
      ensures tc.shieldHP == old(shieldHP)
    {
      tc.shieldHP := shieldHP;
    }
  }

  /** Charges that are each at most `LONG_MAX / n` add up without overflow. */
  lemma ShieldSumExact(charges: seq<int>, cap: int)
    requires forall i :: 0 <= i < |charges| ==> 0 <= charges[i] <= cap
    requires |charges| * cap <= JavaMath.LONG_MAX
    ensures JavaMath.Wrap64(Sum(charges)) == Sum(charges)
  {
    SumCapped(charges, cap);
    JavaMath.Wrap64Identity(Sum(charges));
  }

  lemma {:induction false} SumCapped(xs: seq<int>, cap: int)
    requires forall i :: 0 <= i < |xs| ==> 0 <= xs[i] <= cap
    ensures 0 <= Sum(xs) <= |xs| * cap
  {
    if xs != [] {
      SumCapped(xs[..|xs| - 1], cap);
    }
  }

  /** The cells of row `r` in columns `0 .. n`. */
  function RowSum(a: array2<UByte>, r: nat, n: nat): int
    requires r < a.Length0 && n <= a.Length1
    reads a
  {
    if n == 0 then 0 else RowSum(a, r, n - 1) + a[r, n - 1]
  }

  /** All cells of rows `0 .. n`. */
  function GridSum(a: array2<UByte>, n: nat): int
    requires n <= a.Length0
    reads a
  {
    if n == 0 then 0 else GridSum(a, n - 1) + RowSum(a, n - 1, a.Length1)
  }

  /** A row filled with one value sums to the width times that value. */
  lemma {:induction false} FilledRow(a: array2<UByte>, r: nat, n: nat, hp: int)
    requires r < a.Length0 && n <= a.Length1
    requires forall c :: 0 <= c < a.Length1 ==> a[r, c] == hp
    ensures RowSum(a, r, n) == n * hp
  {
    if n > 0 {
      FilledRow(a, r, n - 1, hp);
    }
  }

  /** A grid whose layers are filled with their block hit points sums to the width times the per-layer sum. */
  lemma {:induction false} FilledGrid(a: array2<UByte>, n: nat, blockHP: seq<UByte>)
    requires n <= a.Length0 <= |blockHP|
    requires forall l, c :: 0 <= l < a.Length0 && 0 <= c < a.Length1 ==> a[l, c] == blockHP[l]
    ensures GridSum(a, n) == a.Length1 * Sum(blockHP[..n])
  {
    if n > 0 {
      FilledGrid(a, n - 1, blockHP);
      FilledRow(a, n - 1, a.Length1, blockHP[n - 1]);
      assert blockHP[..n][..n - 1] == blockHP[..n - 1];
    }
  }

  /** `ArmorComponent`: the armor grid, `[layer][column]` = block hit points; null until set. */
  class ArmorComponent {
    var armor: array2?<UByte>

    constructor ()
      ensures armor == null
    {
      armor := null;
    }

    /** `set(hull)`: `layers` by `width` blocks, each layer at its own block hit points. */
    method SetHull(layers: nat, width: nat, blockHP: seq<UByte>)
      requires layers <= |blockHP|
      modifies this
      ensures armor != null && fresh(armor)
      ensures armor.Length0 == layers && armor.Length1 == width
      ensures forall l, c :: 0 <= l < layers && 0 <= c < width ==> armor[l, c] == blockHP[l]
    {
      armor := new UByte[layers, width]((l: nat, c: nat) => if l < |blockHP| then blockHP[l] else 0);
    }

    /** `set(munitionHull)`: one block per m², at least one column, every block at the hull's block hit points. */
    method SetMunition(surfaceArea: int, layers: nat, blockHP: UByte)
      requires JavaMath.IsInt(surfaceArea)
      modifies this
      ensures armor != null && fresh(armor)
      ensures armor.Length0 == layers
      ensures armor.Length1 == if surfaceArea < 2000000 then 1 else surfaceArea / 1000000
      ensures forall l, c :: 0 <= l < layers && 0 <= c < armor.Length1 ==> armor[l, c] == blockHP
    {
      var q := JavaMath.Div(surfaceArea, 1000000);
      var width := if q > 1 then q else 1;
      if surfaceArea >= 0 {
        JavaMath.DivNonNegative(surfaceArea, 1000000);
      }
      armor := new UByte[layers, width]((l: nat, c: nat) => blockHP);
    }

    /** `getTotalHP()`: the `Int` sum of every block; a null grid throws. */
    method GetTotalHP() returns (r: Result<int>)
      ensures armor == null ==> r == Err(NullPointer)
      ensures armor != null ==> r == Ok(JavaMath.Wrap32(GridSum(armor, armor.Length0)))
    {
      if armor == null {
        return Err(NullPointer);
      }
      var a := armor;
      var sum := 0;
      var y := 0;
      while y < a.Length0
        invariant 0 <= y <= a.Length0
        invariant sum == JavaMath.Wrap32(GridSum(a, y))
      {
        var x := 0;
        while x < a.Length1
          invariant 0 <= x <= a.Length1
          invariant sum == JavaMath.Wrap32(GridSum(a, y) + RowSum(a, y, x))
        {
          JavaMath.Wrap32Sum(GridSum(a, y) + RowSum(a, y, x), a[y, x]);
          sum := JavaMath.Wrap32(sum + a[y, x]);
          x := x + 1;
        }
        y := y + 1;
      }
      return Ok(sum);
    }
  
    /**
     * `copy(tc)`: a null grid throws; the target gets a new grid when it has
     * none or its shape differs, else its blocks are overwritten. With no
     * layers on either side, reading the target's first layer throws.
     */
    method Copy(tc: ArmorComponent) returns (r: Outcome)
      modifies tc, tc.armor
      ensures armor == old(armor)
      ensures old(armor) == null ==> r == Fail(NullPointer) && unchanged(tc) && (old(tc.armor) != null ==> unchanged(old(tc.armor)))
      ensures old(armor) != null && old(tc.armor) != null && old(tc.armor.Length0) == 0 && old(armor.Length0) == 0
              ==> r == Fail(IndexOutOfBounds) && unchanged(tc) && unchanged(old(tc.armor))
      ensures r.Pass? ==> (tc.armor != null && armor != null
        && tc.armor.Length0 == armor.Length0 && tc.armor.Length1 == armor.Length1
        && forall l, c :: 0 <= l < armor.Length0 && 0 <= c < armor.Length1 ==> tc.armor[l, c] == armor[l, c])
      ensures r.Pass? <==> old(armor) != null && !(old(tc.armor) != null && old(tc.armor.Length0) == 0 && old(armor.Length0) == 0)
    {
      if armor == null {
        return Fail(NullPointer);
      }
      var a := armor;
      var t := tc.armor;
      if t != null && t.Length0 == a.Length0 && a.Length0 == 0 {
        return Fail(IndexOutOfBounds);
      }
      if t == null || t.Length0 != a.Length0 || t.Length1 != a.Length1 {
        t := new UByte[a.Length0, a.Length1];
        tc.armor := t;
      }
      var y := 0;
      while y < a.Length0
        invariant 0 <= y <= a.Length0
        invariant tc.armor == t && armor == a
        invariant forall l, c :: 0 <= l < y && 0 <= c < a.Length1 ==> t[l, c] == a[l, c]
      {
        var x := 0;
        while x < a.Length1
          invariant 0 <= x <= a.Length1
          invariant tc.armor == t && armor == a
          invariant forall l, c :: 0 <= l < y && 0 <= c < a.Length1 ==> t[l, c] == a[l, c]
          invariant forall c :: 0 <= c < x ==> t[y, c] == a[y, c]
        {
          t[y, x] := a[y, x];
          x := x + 1;
        }
        y := y + 1;
      }
      return Pass;
    }
  }

  /** `HPComponent`: a munition's hull hit points, a `Short`; -1 until set. */
  class HPComponent {
    var health: int

    constructor ()
      ensures health == -1
    {
      health := -1;
    }

    method Set(h: Short)
      modifies this
      ensures health == h
    {
      health := h;
    }

    /** `set(munitionHull)`: the `Int` sum of the parts' `maxHealth`, cut to a `Short`. */
    method SetFromParts(maxHealths: seq<UByte>)
      modifies this
      ensures health == JavaMath.Wrap16(JavaMath.Wrap32(Sum(maxHealths)))
    {
      var sum := 0;
      var i := 0;
      while i < |maxHealths|
        invariant 0 <= i <= |maxHealths|
        invariant sum == JavaMath.Wrap32(Sum(maxHealths[..i]))
      {
        assert maxHealths[..i + 1][..i] == maxHealths[..i];
        JavaMath.Wrap32Sum(Sum(maxHealths[..i]), maxHealths[i]);
        sum := JavaMath.Wrap32(sum + maxHealths[i]);
        i := i + 1;
      }
      assert maxHealths[..i] == maxHealths;
      health := JavaMath.Wrap16(sum);
    }

    method Copy(tc: HPComponent)
      modifies tc
      ensures tc.health == old(health)
    {
      tc.health := health;
    }
  }

  /** Fewer than 128 parts keep a munition's health sum inside a `Short`. */
  lemma MunitionHealthExact(maxHealths: seq<UByte>)
    requires |maxHealths| < 0x80
    ensures JavaMath.Wrap16(JavaMath.Wrap32(Sum(maxHealths))) == Sum(maxHealths)
  {
    SumCapped(maxHealths, 255);
    JavaMath.Wrap32Identity(Sum(maxHealths));
  }

  /** The running total after one cell changes from `oldHP` to `health`. */
  lemma TotalAfterUpdate(cells: seq<int>, i: nat, health: int, total: int)
    requires i < |cells| && total == JavaMath.Wrap32(Sum(cells))
    ensures JavaMath.Wrap32(total + health - cells[i]) == JavaMath.Wrap32(Sum(cells[i := health]))
  {
    SumUpdate(cells, i, health);
    JavaMath.Wrap32Sum(Sum(cells), health - cells[i]);
  }

  /** The damageable map after a part goes from `oldHP` to `health`, the removal going through `at`. */
  function Damaged(d: Damageable, ref: PartRef, oldHP: int, health: int, at: Option<nat>): (r: Damageable)
    requires Wellformed(d.parts) && (oldHP > 0 && health == 0 ==> at.Some? && at.value < |d.parts|)
    ensures Wellformed(r.parts)
  {
    if oldHP == 0 && health > 0 then Add(d, ref)
    else if oldHP > 0 && health == 0 then Drop(d, ref, at.value)
    else d
  }

  /** `setPartHP` keeps each bag uniform and the tracked maximum, for parts of positive volume. */
  lemma DamagedKeepsShape(d: Damageable, ref: PartRef, oldHP: int, health: int, at: Option<nat>)
    requires Wellformed(d.parts) && Consistent(d.parts) && Tracked(d) && ref.part.volume > 0
    requires oldHP > 0 && health == 0 ==> at.Some? && at.value < |d.parts| && ref in d.parts[at.value].value
    ensures Consistent(Damaged(d, ref, oldHP, health, at).parts) && Tracked(Damaged(d, ref, oldHP, health, at))
  {
    if oldHP == 0 && health > 0 {
      AddConsistent(d, ref);
      AddTracked(d, ref);
    } else if oldHP > 0 && health == 0 {
      DropConsistent(d, ref, at.value);
      DropTracked(d, ref, at.value);
    }
  }

  /** Copies every cell of `src` into `dst`, which may be the same array. */
  method CopyCells(src: array<UByte>, dst: array<UByte>)
    requires src.Length == dst.Length
    modifies dst
    ensures dst[..] == old(src[..])
  {
    var i := 0;
    while i < src.Length
      invariant 0 <= i <= src.Length
      invariant forall k :: 0 <= k < i ==> dst[k] == old(src[k])
      invariant forall k :: i <= k < src.Length ==> src[k] == old(src[k])
    {
      dst[i] := src[i];
      i := i + 1;
    }
  }

  /** `PartsHPComponent`: hit points per part, their running total, and the damageable-parts map. */
  class PartsHPComponent {
    var totalPartHP: int
    var partHP: array<UByte>
    var damageablePartsMaxVolume: int
    var damageableParts: seq<Entry>

    /** The map is well formed, and the total is the `Int` sum of the cells (-1 before the first `set`). */
    ghost predicate Valid()
      reads this, partHP
    {
      Wellformed(damageableParts)
      && (totalPartHP == JavaMath.Wrap32(Sum(partHP[..])) || (totalPartHP == -1 && partHP.Length == 0))
    }

    function State(): Damageable
      reads this
    {
      Damageable(damageableParts, damageablePartsMaxVolume)
    }

    constructor ()
      ensures Valid() && fresh(partHP)
      ensures totalPartHP == -1 && partHP.Length == 0 && damageableParts == [] && damageablePartsMaxVolume == 0
    {
      totalPartHP := -1;
      partHP := new UByte[0];
      damageablePartsMaxVolume := 0;
      damageableParts := [];
    }

    /** `getPartHP(ref)`: the part's current hit points. */
    function GetPartHP(ref: PartRef): (r: Result<int>)
      reads this, partHP
      ensures 0 <= ref.index < partHP.Length <==> r.Ok?
      ensures r.Ok? ==> r.value == partHP[ref.index] && 0 <= r.value < 0x100
      ensures r.Err? ==> r.error == IndexOutOfBounds
    {
      if 0 <= ref.index < partHP.Length then Ok(partHP[ref.index] as int) else Err(IndexOutOfBounds)
    }

    /** `getDamageablePartsEntry(volume)`: walk from the ceiling entry through the higher entries. */
    method FindEntry(volume: int) returns (r: Option<nat>)
      requires Wellformed(damageableParts)
      ensures r == Locate(damageableParts, volume)
      ensures r.Some? ==> r.value < |damageableParts| && damageableParts[r.value].value[0].part.volume == volume
    {
      var m := damageableParts;
      if |m| == 0 {
        return None;
      }
      var i := LongTreeMap.Ceiling(m, volume);
      while i < |m|
        invariant i <= |m|
        invariant Scan(m, volume, i) == Locate(m, volume)
        decreases |m| - i
      {
        if m[i].value[0].part.volume == volume {
          return Some(i);
        }
        LongTreeMap.HigherIsNext(m, i);
        i := LongTreeMap.Higher(m, m[i].key);
      }
      return None;
    }

    /** `addDamageablePart(ref)`. */
    method AddDamageablePart(ref: PartRef)
      requires Wellformed(damageableParts)
      modifies this
      ensures State() == Add(old(State()), ref)
      ensures totalPartHP == old(totalPartHP) && partHP == old(partHP)
    {
      var at: Option<nat> := None;
      if |damageableParts| > 0 {
        at := FindEntry(ref.part.volume);
      }
      if at.Some? {
        GrowEntry(ref, at.value);
      } else {
        NewEntry(ref);
      }
    }

    /** `addDamageablePart` when a bag of the part's volume exists: the bag grows under its new total. */
    method GrowEntry(ref: PartRef, at: nat)
      requires Wellformed(damageableParts) && Locate(damageableParts, ref.part.volume) == Some(at)
      modifies this
      ensures State() == Add(old(State()), ref)
      ensures totalPartHP == old(totalPartHP) && partHP == old(partHP)
    {
      ghost var d := State();
      var e := damageableParts[at];
      var key := e.key + ref.part.volume;
      damageableParts := LongTreeMap.Put(LongTreeMap.Remove(damageableParts, e.key), key, e.value + [ref]);
      if key > damageablePartsMaxVolume {
        damageablePartsMaxVolume := key;
      }
      AddToBag(d, ref, at);
    }

    /** `addDamageablePart` when no bag of the part's volume exists: a bag of one part is put. */
    method NewEntry(ref: PartRef)
      requires Wellformed(damageableParts) && Locate(damageableParts, ref.part.volume).None?
      modifies this
      ensures State() == Add(old(State()), ref)
      ensures totalPartHP == old(totalPartHP) && partHP == old(partHP)
    {
      ghost var d := State();
      var v := ref.part.volume;
      damageableParts := LongTreeMap.Put(damageableParts, v, [ref]);
      if v > damageablePartsMaxVolume {
        damageablePartsMaxVolume := v;
      }
      AddNewBag(d, ref);
    }

    /** The removal branch of `setPartHP`, on the entry at `at`. */
    method RemoveDamageablePart(ref: PartRef, at: nat)
      requires Wellformed(damageableParts) && at < |damageableParts|
      modifies this
      ensures State() == Drop(old(State()), ref, at)
      ensures totalPartHP == old(totalPartHP) && partHP == old(partHP)
    {
      var v := ref.part.volume;
      var e := damageableParts[at];
      damageableParts := LongTreeMap.Remove(damageableParts, e.key);
      if |e.value| == 1 {
        if |damageableParts| == 0 {
          damageablePartsMaxVolume := 0;
        } else if v == damageablePartsMaxVolume {
          damageablePartsMaxVolume := LongTreeMap.LastKey(damageableParts);
        }
      } else {
        var newVolume := e.key - v;
        damageableParts := LongTreeMap.Put(damageableParts, newVolume, BagRemove(e.value, ref));
        if damageablePartsMaxVolume >= newVolume {
          damageablePartsMaxVolume := LongTreeMap.LastKey(damageableParts);
        }
      }
    }
  
    /** The map changes of `setPartHP`: raised from 0 adds, dropped to 0 removes through the entry. */
    method UpdateDamageable(ref: PartRef, oldHP: int, health: int, entry: Option<nat>) returns (r: Outcome)
      requires Wellformed(damageableParts) && (entry.Some? ==> entry.value < |damageableParts|)
      modifies this
      ensures Wellformed(damageableParts) && totalPartHP == old(totalPartHP) && partHP == old(partHP)
      ensures var at := if entry.Some? then entry else Locate(old(damageableParts), ref.part.volume);
        if oldHP > 0 && health == 0 && at.None? then r == Fail(NullPointer) && unchanged(this)
        else r == Pass && State() == Damaged(old(State()), ref, oldHP, health, at)
    {
      r := Pass;
      if oldHP == 0 && health > 0 {
        AddDamageablePart(ref);
      } else if oldHP > 0 && health == 0 {
        var at := entry;
        if at.None? {
          at := FindEntry(ref.part.volume);
        }
        if at.None? {
          return Fail(NullPointer);
        }
        RemoveDamageablePart(ref, at.value);
      }
    }

    /**
     * `setPartHP(ref, health, entry)`: out-of-range health throws; a part
     * raised from 0 becomes damageable, a part dropped to 0 leaves the map
     * (through `entry` when given, else the looked-up entry, which must
     * exist); the total moves by `health - oldHP`.
     */
    method SetPartHP(ref: PartRef, health: int, entry: Option<nat>) returns (r: Outcome)
      requires Valid() && (entry.Some? ==> entry.value < |damageableParts|)
      modifies this, partHP
      ensures Valid() && partHP == old(partHP)
      ensures !(0 <= health <= ref.part.maxHealth) ==> r == Fail(IllegalArgument) && unchanged(this, partHP)
      ensures 0 <= health <= ref.part.maxHealth && !(0 <= ref.index < partHP.Length)
              ==> r == Fail(IndexOutOfBounds) && unchanged(this, partHP)
      ensures 0 <= health <= ref.part.maxHealth && 0 <= ref.index < partHP.Length ==> (
        var oldHP := old(partHP[ref.index]);
        var removing := oldHP > 0 && health == 0;
        var at := if entry.Some? then entry else Locate(old(damageableParts), ref.part.volume);
        if removing && at.None? then r == Fail(NullPointer) && unchanged(this, partHP)
        else (r == Pass
          && partHP[..] == old(partHP[..])[ref.index := health]
          && totalPartHP == JavaMath.Wrap32(old(totalPartHP) + health - oldHP)
          && State() == Damaged(old(State()), ref, oldHP, health, at)))
    {
      if health < 0 || health > ref.part.maxHealth {
        return Fail(IllegalArgument);
      }
      if !(0 <= ref.index < partHP.Length) {
        return Fail(IndexOutOfBounds);
      }
      var oldHP := partHP[ref.index] as int;
      r := UpdateDamageable(ref, oldHP, health, entry);
      if r.Fail? {
        return;
      }
      TotalAfterUpdate(partHP[..], ref.index, health, totalPartHP);
      totalPartHP := JavaMath.Wrap32(totalPartHP + health - oldHP);
      partHP[ref.index] := health;
    }
  
    /** The `Int` sum of the cells, as `UByteArray.sum().toInt()`. */
    method SumCells() returns (total: int)
      ensures total == JavaMath.Wrap32(Sum(partHP[..]))
    {
      total := 0;
      var i := 0;
      while i < partHP.Length
        invariant 0 <= i <= partHP.Length
        invariant total == JavaMath.Wrap32(Sum(partHP[..i]))
      {
        assert partHP[..i + 1][..i] == partHP[..i];
        JavaMath.Wrap32Sum(Sum(partHP[..i]), partHP[i]);
        total := JavaMath.Wrap32(total + partHP[i]);
        i := i + 1;
      }
      assert partHP[..i] == partHP[..];
    }

    /**
     * `set(hull)`: every part at its `maxHealth`, the total their sum, and
     * every part ref added to the damageable map, which is not cleared first.
     */
    method Set(refs: seq<PartRef>)
      requires Wellformed(damageableParts)
      modifies this
      ensures Valid() && fresh(partHP)
      ensures partHP[..] == MaxHealths(refs)
      ensures totalPartHP == JavaMath.Wrap32(Sum(MaxHealths(refs)))
      ensures State() == AddAll(old(State()), refs)
    {
      partHP := new UByte[|refs|](i requires 0 <= i < |refs| => refs[i].part.maxHealth);
      assert partHP[..] == MaxHealths(refs);
      totalPartHP := SumCells();
      AddDamageableParts(refs);
    }

    /** `addDamageablePart` for each ref in order. */
    method AddDamageableParts(refs: seq<PartRef>)
      requires Wellformed(damageableParts)
      modifies this
      ensures Wellformed(damageableParts) && State() == AddAll(old(State()), refs)
      ensures totalPartHP == old(totalPartHP) && partHP == old(partHP)
    {
      var i := 0;
      while i < |refs|
        invariant 0 <= i <= |refs|
        invariant totalPartHP == old(totalPartHP) && partHP == old(partHP)
        invariant Wellformed(damageableParts) && State() == AddAll(old(State()), refs[..i])
      {
        assert refs[..i + 1][..i] == refs[..i];
        AddDamageablePart(refs[i]);
        i := i + 1;
      }
      assert refs[..i] == refs;
    }

    /**
     * `copy(tc)`: the target gets equal cells (a new array when it was never
     * set or its size differs), the total and the maximum volume; its
     * damageable map is left as it was.
     */
    method Copy(tc: PartsHPComponent)
      requires Valid() && tc.Valid()
      modifies tc, tc.partHP
      ensures tc.Valid()
      ensures tc.partHP[..] == old(partHP[..]) && tc.totalPartHP == old(totalPartHP)
      ensures tc.damageablePartsMaxVolume == old(damageablePartsMaxVolume)
      ensures tc.damageableParts == old(tc.damageableParts)
      ensures old(tc.totalPartHP) == -1 || old(tc.partHP.Length) != old(partHP.Length) ==> fresh(tc.partHP)
      ensures old(tc.totalPartHP) != -1 && old(tc.partHP.Length) == old(partHP.Length) ==> tc.partHP == old(tc.partHP)
    {
      var src := partHP;
      var total := totalPartHP;
      var maxVolume := damageablePartsMaxVolume;
      ghost var cells := src[..];
      assert total == JavaMath.Wrap32(Sum(cells)) || (total == -1 && cells == []);
      if tc.totalPartHP == -1 || tc.partHP.Length != src.Length {
        tc.partHP := new UByte[src.Length](i requires 0 <= i < src.Length reads src => src[i]);
        assert tc.partHP[..] == cells;
      } else {
        CopyCells(src, tc.partHP);
      }
      tc.totalPartHP := total;
      tc.damageablePartsMaxVolume := maxVolume;
      assert tc.partHP[..] == cells;
    }
  }
}
