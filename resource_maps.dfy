/**
 * Resource-keyed amount maps (`Map<Resource, Long>`): the value sums that
 * slipways and hull designs compute, and the per-resource merge of part
 * costs. Map iteration visits the resources in their declaration order;
 * every sum here wraps modulo 2^64 like a `Long` sum, so the order of
 * visiting does not change it.
 */
module ResourceMaps {
  import opened Cargo
  import JavaMath

  /** Every resource, in declaration order. */
  const ALL: seq<Resource> :=
    [Generic, MetalLight, MetalConductive, Semiconductors, RareEarth, MaintenanceSupplies,
     NuclearFission, NuclearFusion, RocketFuel, LifeSupport, Missiles, Sabots, Items]

  lemma AllListed(r: Resource)
    ensures r in ALL
  {
  }

  predicate Distinct(rs: seq<Resource>)
  {
    forall i, j :: 0 <= i < j < |rs| ==> rs[i] != rs[j]
  }

  /** The declaration position of a resource. */
  function Ordinal(r: Resource): (i: nat)
    ensures i < |ALL| && ALL[i] == r
  {
    match r
    case Generic => 0
    case MetalLight => 1
    case MetalConductive => 2
    case Semiconductors => 3
    case RareEarth => 4
    case MaintenanceSupplies => 5
    case NuclearFission => 6
    case NuclearFusion => 7
    case RocketFuel => 8
    case LifeSupport => 9
    case Missiles => 10
    case Sabots => 11
    case Items => 12
  }

  lemma AllDistinct()
    ensures Distinct(ALL)
  {
    forall i | 0 <= i < |ALL|
      ensures Ordinal(ALL[i]) == i
    {
    }
  }

  /** The amount recorded for `r`, 0 when the map has no entry. */
  function Amount(m: map<Resource, int>, r: Resource): int
  {
    if r in m then m[r] else 0
  }

  /** The exact sum of the amounts of the listed resources. */
  function SumOver(rs: seq<Resource>, m: map<Resource, int>): int
  {
    if rs == [] then 0 else SumOver(rs[..|rs| - 1], m) + Amount(m, rs[|rs| - 1])
  }

  /** The exact sum of all values of `m`. */
  function Total(m: map<Resource, int>): int
  {
    SumOver(ALL, m)
  }

  /** `values.sum()`: the sum of all values as a `Long`. */
  method Sum(m: map<Resource, int>) returns (total: int)
    ensures total == JavaMath.Wrap64(Total(m))
  {
    total := 0;
    var i := 0;
    while i < |ALL|
      invariant 0 <= i <= |ALL|
      invariant total == JavaMath.Wrap64(SumOver(ALL[..i], m))
    {
      assert ALL[..i + 1][..i] == ALL[..i];
      JavaMath.Wrap64Sum(SumOver(ALL[..i], m), Amount(m, ALL[i]));
      total := JavaMath.Wrap64(total + Amount(m, ALL[i]));
      i := i + 1;
    }
    assert ALL[..i] == ALL;
  }

  lemma {:induction false} SumOverNonNegative(rs: seq<Resource>, m: map<Resource, int>)
    requires forall r :: r in m ==> m[r] >= 0
    ensures SumOver(rs, m) >= 0
  {
    if rs != [] {
      SumOverNonNegative(rs[..|rs| - 1], m);
    }
  }

  /** A map of non-negative amounts has a non-negative total. */
  lemma TotalNonNegative(m: map<Resource, int>)
    requires forall r :: r in m ==> m[r] >= 0
    ensures Total(m) >= 0
  {
    SumOverNonNegative(ALL, m);
  }

  lemma {:induction false} SumOverZero(rs: seq<Resource>, m: map<Resource, int>)
    requires forall r :: r in m ==> m[r] == 0
    ensures SumOver(rs, m) == 0
  {
    if rs != [] {
      SumOverZero(rs[..|rs| - 1], m);
    }
  }

  /** Changing one amount changes a sum over distinct resources by the difference, if listed. */
  lemma {:induction false} SumOverUpdate(rs: seq<Resource>, m: map<Resource, int>, r: Resource, v: int)
    requires Distinct(rs)
    ensures SumOver(rs, m[r := v]) == SumOver(rs, m) + (if r in rs then v - Amount(m, r) else 0)
  {
    if rs != [] {
      var init := rs[..|rs| - 1];
      assert Distinct(init);
      SumOverUpdate(init, m, r, v);
      if r == rs[|rs| - 1] {
        assert r !in init;
      }
      assert r in rs <==> r in init || r == rs[|rs| - 1];
    }
  }

  /** Setting one resource's amount to `v` changes the total by `v` minus its old amount. */
  lemma TotalUpdate(m: map<Resource, int>, r: Resource, v: int)
    ensures Total(m[r := v]) == Total(m) - Amount(m, r) + v
  {
    AllDistinct();
    AllListed(r);
    SumOverUpdate(ALL, m, r, v);
  }

  /** A map whose every value is 0 sums to 0. */
  lemma TotalZero(m: map<Resource, int>)
    requires forall r :: r in m ==> m[r] == 0
    ensures Total(m) == 0
  {
    SumOverZero(ALL, m);
  }

  /** The entry `cost[r]` after adding one part's amount for `r`: the amount alone for a new key, else the `Long` sum. */
  function AddOne(m: map<Resource, int>, c: map<Resource, int>, r: Resource): map<Resource, int>
  {
    if r !in c then m
    else m[r := if r in m then JavaMath.Wrap64(m[r] + c[r]) else c[r]]
  }

  /** The merge of `c` into `m`, one listed resource at a time. */
  function AddKeys(m: map<Resource, int>, c: map<Resource, int>, rs: seq<Resource>): map<Resource, int>
  {
    if rs == [] then m else AddOne(AddKeys(m, c, rs[..|rs| - 1]), c, rs[|rs| - 1])
  }

  /** One part's cost added into the running cost map. */
  function AddCost(m: map<Resource, int>, c: map<Resource, int>): map<Resource, int>
  {
    AddKeys(m, c, ALL)
  }

  lemma {:induction false} AddKeysValue(m: map<Resource, int>, c: map<Resource, int>, rs: seq<Resource>, r: Resource)
    requires Distinct(rs)
    ensures r in AddKeys(m, c, rs) <==> r in m || (r in rs && r in c)
    ensures r in AddKeys(m, c, rs) ==>
      AddKeys(m, c, rs)[r] ==
        (if r in rs && r in c then (if r in m then JavaMath.Wrap64(m[r] + c[r]) else c[r]) else m[r])
  {
    if rs != [] {
      var init := rs[..|rs| - 1];
      assert Distinct(init);
      AddKeysValue(m, c, init, r);
      if r == rs[|rs| - 1] {
        assert r !in init;
      }
      assert r in rs <==> r in init || r == rs[|rs| - 1];
    }
  }

  /**
   * After merging `c` into `m`, a resource has an entry iff either map had one,
   * and its amount is the `Long` sum of both (a new key takes `c`'s amount as is).
   */
  lemma AddCostValue(m: map<Resource, int>, c: map<Resource, int>, r: Resource)
    ensures r in AddCost(m, c) <==> r in m || r in c
    ensures r in AddCost(m, c) ==>
      AddCost(m, c)[r] == (if r in c then (if r in m then JavaMath.Wrap64(m[r] + c[r]) else c[r]) else m[r])
  {
    AllDistinct();
    AllListed(r);
    AddKeysValue(m, c, ALL, r);
  }

  /** The merge loop: each resource of `c` is added in declaration order. */
  method Merge(m: map<Resource, int>, c: map<Resource, int>) returns (cost: map<Resource, int>)
    ensures cost == AddCost(m, c)
  {
    cost := m;
    var i := 0;
    while i < |ALL|
      invariant 0 <= i <= |ALL|
      invariant cost == AddKeys(m, c, ALL[..i])
    {
      var r := ALL[i];
      assert ALL[..i + 1][..i] == ALL[..i];
      if r in c {
        if r in cost {
          cost := cost[r := JavaMath.Wrap64(cost[r] + c[r])];
        } else {
          cost := cost[r := c[r]];
        }
      }
      i := i + 1;
    }
    assert ALL[..i] == ALL;
  }
}
