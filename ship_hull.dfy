/**
 * `ShipHull`: a ship design. It holds its parts in order together with a
 * `PartRef` per part that records the part's position, the preferred cargo
 * and munition loads, and the design it was derived from.
 */
module Hulls {
  import opened Wrappers
  import JavaMath
  import Text
  import Units
  import Cargo
  import ResourceMaps
  import opened Parts
  import Power
  import ShipyardKinds

  /** Every reference records its own position. */
  predicate Indexed(refs: seq<PartRef>)
  {
    forall i :: 0 <= i < |refs| ==> refs[i].index == i
  }

  /** The references name the parts, position by position. */
  predicate Matches(parts: seq<Part>, refs: seq<PartRef>)
  {
    |parts| == |refs| && forall i :: 0 <= i < |refs| ==> refs[i].part == parts[i]
  }

  /** `List.indexOf`: the first position holding `p`, or -1. */
  function IndexOf(parts: seq<Part>, p: Part): (i: int)
    ensures -1 <= i < |parts|
    ensures i == -1 <==> p !in parts
    ensures i >= 0 ==> parts[i] == p && forall j :: 0 <= j < i ==> parts[j] != p
  {
    if parts == [] then -1
    else if parts[0] == p then 0
    else
      var i := IndexOf(parts[1..], p);
      assert forall j :: 1 <= j < |parts| ==> parts[j] == parts[1..][j - 1];
      if i == -1 then -1 else i + 1
  }

  /** `getCost`: the per-resource `Long` sums of the parts' costs, built part by part. */
  function Costs(parts: seq<Part>): map<Cargo.Resource, int>
  {
    if parts == [] then map[] else ResourceMaps.AddCost(Costs(parts[..|parts| - 1]), parts[|parts| - 1].cost)
  }

  /** The exact sum of the parts' amounts of `r`. */
  function ResourceCost(parts: seq<Part>, r: Cargo.Resource): int
  {
    if parts == [] then 0 else ResourceCost(parts[..|parts| - 1], r) + ResourceMaps.Amount(parts[|parts| - 1].cost, r)
  }

  /** Every part's cost amounts are `Int`s. */
  predicate IntCosts(parts: seq<Part>)
  {
    forall i, r :: 0 <= i < |parts| && r in parts[i].cost ==> JavaMath.IsInt(parts[i].cost[r])
  }

  /** The cost map has an entry exactly for the resources some part costs. */
  lemma {:induction false} CostsKeys(parts: seq<Part>, r: Cargo.Resource)
    ensures r in Costs(parts) <==> exists i :: 0 <= i < |parts| && r in parts[i].cost
  {
    if parts != [] {
      var init, last := parts[..|parts| - 1], parts[|parts| - 1];
      CostsKeys(init, r);
      ResourceMaps.AddCostValue(Costs(init), last.cost, r);
      if exists i :: 0 <= i < |parts| && r in parts[i].cost {
        var i :| 0 <= i < |parts| && r in parts[i].cost;
        if i < |init| {
          assert init[i] == parts[i];
        }
      }
      if exists i :: 0 <= i < |init| && r in init[i].cost {
        var i :| 0 <= i < |init| && r in init[i].cost;
        assert parts[i] == init[i];
      }
    }
  }

  /** Each entry of the cost map is the sum of that resource over all parts, as a `Long`. */
  lemma {:induction false} CostsMeaning(parts: seq<Part>, r: Cargo.Resource)
    requires IntCosts(parts)
    ensures r in Costs(parts) ==> Costs(parts)[r] == JavaMath.Wrap64(ResourceCost(parts, r))
  {
    if parts != [] {
      var init, last := parts[..|parts| - 1], parts[|parts| - 1];
      assert IntCosts(init) by {
        forall i, s | 0 <= i < |init| && s in init[i].cost
          ensures JavaMath.IsInt(init[i].cost[s])
        {
          assert init[i] == parts[i];
        }
      }
      CostsMeaning(init, r);
      ResourceMaps.AddCostValue(Costs(init), last.cost, r);
      if r in Costs(parts) {
        if r in last.cost && r in Costs(init) {
          JavaMath.Wrap64Sum(ResourceCost(init, r), last.cost[r]);
        } else if r in last.cost {
          CostsKeys(init, r);
          NoCostNoSum(init, r);
          JavaMath.Wrap64Identity(last.cost[r]);
        } else {
          JavaMath.Wrap64Identity(Costs(init)[r]);
        }
      }
    }
  }

  /** A resource no part costs sums to 0. */
  lemma {:induction false} NoCostNoSum(parts: seq<Part>, r: Cargo.Resource)
    requires forall i :: 0 <= i < |parts| ==> r !in parts[i].cost
    ensures ResourceCost(parts, r) == 0
  {
    if parts != [] {
      NoCostNoSum(parts[..|parts| - 1], r);
    }
  }

  /** `hashCode`: 1, then 37 times the hash so far plus each of the four fields, as an `Int`. */
  function HullHash(name: string, designDay: int, armorLayers: int, schemeOrdinal: int): (h: int)
    ensures JavaMath.IsInt(h)
  {
    var h1 := JavaMath.Wrap32(37 * 1 + Text.StringHash(name));
    var h2 := JavaMath.Wrap32(37 * h1 + designDay);
    var h3 := JavaMath.Wrap32(37 * h2 + armorLayers);
    JavaMath.Wrap32(37 * h3 + schemeOrdinal)
  }

  /** One step of the hash: wrapping the running hash first does not change the wrapped step. */
  lemma HashStep(x: int, y: int)
    ensures JavaMath.Wrap32(37 * JavaMath.Wrap32(x) + y) == JavaMath.Wrap32(37 * x + y)
  {
    var M := 0x1_0000_0000;
    var k := (JavaMath.Wrap32(x) - x) / M;
    assert JavaMath.Wrap32(x) - x == M * k;
    assert (37 * JavaMath.Wrap32(x) + y) - (37 * x + y) == M * (37 * k);
    JavaMath.DivUnique((37 * JavaMath.Wrap32(x) + y) - (37 * x + y), M, 37 * k, 0);
    JavaMath.Wrap32Congruent(37 * JavaMath.Wrap32(x) + y, 37 * x + y);
  }

  /**
   * The hash is the low 32 bits of the exact Horner polynomial in 37 over
   * 1, name.hashCode(), designDay, armorLayers and the ordinal: the
   * intermediate `Int` overflows do not matter, and it depends on these four
   * values and on nothing else.
   */
  lemma HullHashPolynomial(name: string, designDay: int, armorLayers: int, schemeOrdinal: int)
    ensures HullHash(name, designDay, armorLayers, schemeOrdinal) ==
      JavaMath.Wrap32(37 * (37 * (37 * (37 + Text.StringHash(name)) + designDay) + armorLayers) + schemeOrdinal)
  {
    var n := Text.StringHash(name);
    var x1 := 37 + n;
    var x2 := 37 * x1 + designDay;
    var x3 := 37 * x2 + armorLayers;
    var h2 := JavaMath.Wrap32(37 * JavaMath.Wrap32(x1) + designDay);
    assert h2 == JavaMath.Wrap32(x2) by {
      HashStep(x1, designDay);
    }
    var h3 := JavaMath.Wrap32(37 * h2 + armorLayers);
    assert h3 == JavaMath.Wrap32(x3) by {
      HashStep(x2, armorLayers);
    }
    assert HullHash(name, designDay, armorLayers, schemeOrdinal) == JavaMath.Wrap32(37 * h3 + schemeOrdinal);
    HashStep(x3, schemeOrdinal);
  }

  /** `toString`: "name YYYY", or "name YYYY-yy" with the parent's year and this design's sub-year. */
  function Label(name: string, designDay: int, parentDesignDay: Option<int>): string
  {
    match parentDesignDay
    case None => name + " " + Units.DaysToYear(designDay)
    case Some(p) => name + " " + Units.DaysToYear(p) + "-" + Units.DaysToSubYear(designDay)
  }

  /**
   * A derived design's label starts with the parent's name-and-year label and
   * ends with the last two digits of its own design year.
   */
  lemma DerivedLabel(name: string, designDay: int, parentDesignDay: int)
    requires 0 <= designDay < 7900 * 365
    ensures Label(name, designDay, Some(parentDesignDay)) ==
      Label(name, parentDesignDay, None) + "-" + Units.DaysToYear(designDay)[2..]
  {
    Units.SubYearEndsYear(designDay);
  }

  /**
   * Removing a part from the middle leaves the later references with their old
   * positions: the reference now at `i` still records `i + 1`.
   */
  lemma RemoveLeavesStaleIndex(refs: seq<PartRef>, i: int)
    requires Indexed(refs) && 0 <= i < |refs| - 1
    ensures var rest := refs[..i] + refs[i + 1..]; rest[i].index == i + 1 && !Indexed(rest)
  {
    var rest := refs[..i] + refs[i + 1..];
    assert rest[i] == refs[i + 1];
  }

  /** The references from position `from` on, rewritten to name the part there and record that position. */
  method Renumber(parts: seq<Part>, refs: seq<PartRef>, from: nat) returns (out: seq<PartRef>)
    requires from <= |refs| == |parts|
    ensures |out| == |refs| && out[..from] == refs[..from]
    ensures forall j :: from <= j < |out| ==> out[j] == PartRef(parts[j], j)
  {
    out := refs;
    var k := from;
    while k < |out|
      invariant from <= k <= |out| == |refs|
      invariant out[..from] == refs[..from]
      invariant forall j :: from <= j < k ==> out[j] == PartRef(parts[j], j)
    {
      out := out[k := PartRef(parts[k], k)];
      k := k + 1;
    }
  }

  /** `ShipHullClass`: a class of hulls, by name and code. */
  datatype HullClass = HullClass(name: string, code: string)

  /** `ShipHullClass.NONE`, the class of a hull that has none. */
  const NO_CLASS := HullClass("", "")

  class ShipHull {
    var name: string
    var hullClass: HullClass
    var designDay: int
    var locked: bool
    var obsolete: bool
    var requiredShipYardType: ShipyardKinds.ShipyardType
    var parts: seq<Part>
    var partRefs: seq<PartRef>
    /** Centimetres of armour. */
    var armorLayers: int
    var armorBlockHP: int
    var preferredCargo: map<Cargo.Resource, int>
    var preferredMunitions: map<Cargo.MunitionHull, int>
    var preferredPartMunitions: map<PartRef, Cargo.MunitionHull>
    var powerScheme: Power.PowerScheme
    var defaultWeaponAssignments: map<PartRef, seq<PartRef>>
    var parentHull: ShipHull?
    var derivatives: seq<ShipHull>
    var comment: string
    /** The lazily computed hash code. */
    var hashcode: Option<int>

    ghost predicate Valid()
      reads this
    {
      Matches(parts, partRefs)
    }

    /** Everything but the part lists and the hash cache is as before. */
    twostate predicate SameDesign()
      reads this
    {
      name == old(name) && hullClass == old(hullClass) && designDay == old(designDay) &&
      locked == old(locked) && obsolete == old(obsolete) && comment == old(comment) &&
      requiredShipYardType == old(requiredShipYardType) &&
      armorLayers == old(armorLayers) && armorBlockHP == old(armorBlockHP) &&
      preferredCargo == old(preferredCargo) && preferredMunitions == old(preferredMunitions) &&
      preferredPartMunitions == old(preferredPartMunitions) && powerScheme == old(powerScheme) &&
      defaultWeaponAssignments == old(defaultWeaponAssignments) && parentHull == old(parentHull) &&
      derivatives == old(derivatives) && hashcode == old(hashcode)
    }

    constructor ()
      ensures Valid() && parts == [] && partRefs == []
      ensures name == "" && hullClass == NO_CLASS && designDay == 0 && requiredShipYardType == ShipyardKinds.Civilian
      ensures !locked && !obsolete && comment == ""
      ensures armorLayers == 1 && armorBlockHP == 100
      ensures preferredCargo == map[] && preferredMunitions == map[] && preferredPartMunitions == map[]
      ensures powerScheme == Power.SolarBatteryReactor && defaultWeaponAssignments == map[]
      ensures parentHull == null && derivatives == [] && hashcode == None
    {
      name := "";
      hullClass := NO_CLASS;
      designDay := 0;
      locked := false;
      obsolete := false;
      comment := "";
      requiredShipYardType := ShipyardKinds.Civilian;
      parts := [];
      partRefs := [];
      armorLayers := 1;
      armorBlockHP := 100;
      preferredCargo := map[];
      preferredMunitions := map[];
      preferredPartMunitions := map[];
      powerScheme := Power.SolarBatteryReactor;
      defaultWeaponAssignments := map[];
      parentHull := null;
      derivatives := [];
      hashcode := None;
    }

    /**
     * The copy constructor: name, hull class, shipyard type, armour and
     * scheme come from the parent; its parts are added one by one, so the
     * new references are numbered afresh; the preference maps are copied;
     * the new design is appended to the parent's derivatives. The design
     * day, the locked and obsolete flags and the comment are not copied:
     * they start as in a new hull.
     */
    constructor Derived(parent: ShipHull)
      modifies parent
      ensures Valid() && Indexed(partRefs) && parts == old(parent.parts)
      ensures parentHull == parent && name == old(parent.name) && hullClass == old(parent.hullClass) && designDay == 0
      ensures !locked && !obsolete && comment == ""
      ensures requiredShipYardType == old(parent.requiredShipYardType)
      ensures armorLayers == old(parent.armorLayers) && armorBlockHP == old(parent.armorBlockHP)
      ensures powerScheme == old(parent.powerScheme)
      ensures preferredCargo == old(parent.preferredCargo) && preferredMunitions == old(parent.preferredMunitions)
      ensures preferredPartMunitions == old(parent.preferredPartMunitions)
      ensures defaultWeaponAssignments == old(parent.defaultWeaponAssignments)
      ensures derivatives == [] && hashcode == None
      ensures parent.derivatives == old(parent.derivatives) + [this]
      ensures parent.parts == old(parent.parts) && parent.partRefs == old(parent.partRefs)
    {
      parentHull := parent;
      name := parent.name;
      hullClass := parent.hullClass;
      designDay := 0;
      locked := false;
      obsolete := false;
      comment := "";
      requiredShipYardType := parent.requiredShipYardType;
      parts := [];
      partRefs := [];
      armorLayers := parent.armorLayers;
      armorBlockHP := parent.armorBlockHP;
      preferredCargo := parent.preferredCargo;
      preferredMunitions := parent.preferredMunitions;
      preferredPartMunitions := parent.preferredPartMunitions;
      powerScheme := parent.powerScheme;
      defaultWeaponAssignments := parent.defaultWeaponAssignments;
      derivatives := [];
      hashcode := None;
      new;
      label Start:
      var source := parent.parts;
      var i := 0;
      while i < |source|
        invariant 0 <= i <= |source|
        invariant parts == source[..i] && Valid() && Indexed(partRefs)
        invariant SameDesign@Start()
        invariant parent.parts == old(parent.parts) && parent.partRefs == old(parent.partRefs)
        invariant parent.derivatives == old(parent.derivatives)
      {
        AddPart(source[i]);
        assert source[..i + 1] == source[..i] + [source[i]];
        i := i + 1;
      }
      assert source[..i] == source;
      parent.derivatives := parent.derivatives + [this];
    }

    /** `addPart`: appends the part and a reference recording its position. */
    method AddPart(part: Part)
      modifies this
      requires Valid()
      ensures Valid() && SameDesign()
      ensures parts == old(parts) + [part]
      ensures partRefs == old(partRefs) + [PartRef(part, |old(parts)|)]
      ensures Indexed(old(partRefs)) ==> Indexed(partRefs)
    {
      parts := parts + [part];
      partRefs := partRefs + [PartRef(part, |parts| - 1)];
    }

    /**
     * `removePart`: an absent part is an `IllegalArgumentException`; otherwise
     * the first occurrence is removed from both lists at the same position,
     * and the later references keep their recorded positions.
     */
    method RemovePart(part: Part) returns (o: Outcome)
      modifies this
      requires Valid()
      ensures Valid() && SameDesign()
      ensures part !in old(parts) ==> o == Fail(IllegalArgument) && parts == old(parts) && partRefs == old(partRefs)
      ensures part in old(parts) ==> (o == Pass &&
        var i := IndexOf(old(parts), part);
        parts == old(parts)[..i] + old(parts)[i + 1..] && partRefs == old(partRefs)[..i] + old(partRefs)[i + 1..])
    {
      var index := IndexOf(parts, part);
      if index == -1 {
        return Fail(IllegalArgument);
      }
      parts := parts[..index] + parts[index + 1..];
      partRefs := partRefs[..index] + partRefs[index + 1..];
      o := Pass;
    }

    /** The corrected `removePart`: as above, then the later references are renumbered. */
    method RemovePartReindexed(part: Part) returns (o: Outcome)
      modifies this
      requires Valid()
      ensures Valid() && SameDesign()
      ensures part !in old(parts) ==> o == Fail(IllegalArgument) && parts == old(parts) && partRefs == old(partRefs)
      ensures part in old(parts) ==> (o == Pass &&
        var i := IndexOf(old(parts), part);
        parts == old(parts)[..i] + old(parts)[i + 1..] &&
        partRefs[..i] == old(partRefs)[..i])
      ensures Indexed(old(partRefs)) ==> Indexed(partRefs)
    {
      var index := IndexOf(parts, part);
      if index == -1 {
        return Fail(IllegalArgument);
      }
      parts := parts[..index] + parts[index + 1..];
      var refs := Renumber(parts, partRefs[..index] + partRefs[index + 1..], index);
      partRefs := refs;
      o := Pass;
    }

    /** `get(partIndex)`: the reference at that position; outside the list, `IndexOutOfBoundsException`. */
    function Get(index: int): (r: Result<PartRef>)
      reads this
      requires Valid()
      ensures r.Ok? <==> 0 <= index < |partRefs|
      ensures r.Ok? ==> r.value.part == parts[index] && (Indexed(partRefs) ==> r.value.index == index)
      ensures r.Err? ==> r.error == IndexOutOfBounds
    {
      if 0 <= index < |partRefs| then Ok(partRefs[index]) else Err(IndexOutOfBounds)
    }

    /** `getCost()`: the parts' costs merged resource by resource, part by part. */
    method GetCost() returns (cost: map<Cargo.Resource, int>)
      ensures cost == Costs(parts)
    {
      cost := map[];
      var i := 0;
      while i < |parts|
        invariant 0 <= i <= |parts|
        invariant cost == Costs(parts[..i])
      {
        assert parts[..i + 1][..i] == parts[..i];
        cost := ResourceMaps.Merge(cost, parts[i].cost);
        i := i + 1;
      }
      assert parts[..i] == parts;
    }

    /** `getPreferredCargoMass()`: the sum of the preferred cargo amounts, as a `Long`. */
    method GetPreferredCargoMass() returns (mass: int)
      ensures mass == JavaMath.Wrap64(ResourceMaps.Total(preferredCargo))
    {
      mass := ResourceMaps.Sum(preferredCargo);
    }

    /** `hashCode()`: computed from the four fields on the first call, then the cached value. */
    method HashCode() returns (h: int)
      modifies this
      ensures h == (if old(hashcode).Some? then old(hashcode).value
                    else HullHash(name, designDay, armorLayers, powerScheme.Ordinal()))
      ensures hashcode == Some(h)
      ensures parts == old(parts) && partRefs == old(partRefs)
      ensures name == old(name) && designDay == old(designDay) && armorLayers == old(armorLayers)
      ensures powerScheme == old(powerScheme) && parentHull == old(parentHull)
    {
      if hashcode.None? {
        hashcode := Some(HullHash(name, designDay, armorLayers, powerScheme.Ordinal()));
      }
      h := hashcode.value;
    }

    /** `toString()`. */
    function ToString(): string
      reads this, parentHull
    {
      Label(name, designDay, if parentHull == null then None else Some(parentHull.designDay))
    }
  }
}
