/** Shipyard locations and types, with their build rates and modification multipliers. */
module ShipyardKinds {
  datatype ShipyardLocation = Orbital | Terrestial
  {
    function Short(): string { if Orbital? then "ORB" else "GND" }
    /** kg per hour. */
    function BaseBuildrate(): int { if Orbital? then 100 else 150 }
    function ModificationMultiplier(): int { if Orbital? then 120 else 100 }
  }

  datatype ShipyardType = Civilian | Military
  {
    function Short(): string { if Civilian? then "CIV" else "MIL" }
    function ModificationMultiplier(): int { if Civilian? then 100 else 150 }
  }
}

/**
 * Colonies and their shipyards: a slipway builds one hull at a time and
 * tracks the resources used against the hull's cost; a shipyard is modified
 * (capacity, tooling, slipways) at a cost that scales with its size and
 * with the multipliers of its type and location.
 */
module Colony {
  import opened Wrappers
  import JavaMath
  import Cargo
  import ResourceMaps
  import Hulls
  import opened ShipyardKinds

  /** `progress()` from the two sums: 0 when nothing is used, else 100*used/total as an `Int`. */
  function ProgressOf(used: int, total: int): (r: Result<int>)
    ensures r.Err? <==> used != 0 && total == 0
    ensures r.Err? ==> r.error == Arithmetic
    ensures used == 0 ==> r == Ok(0)
  {
    if used == 0 then Ok(0)
    else if total == 0 then Err(Arithmetic)
    else Ok(JavaMath.Wrap32(JavaMath.Div(JavaMath.Wrap64(100 * used), total)))
  }

  /**
   * With `0 <= used <= total` and no overflow, progress is the percentage
   * rounded down: between 0 and 100, and 100 exactly when all is used.
   */
  lemma ProgressPercent(used: int, total: int)
    requires 0 <= used <= total && total > 0 && JavaMath.IsLong(100 * total)
    ensures ProgressOf(used, total).Ok?
    ensures var p := ProgressOf(used, total).value;
      0 <= p <= 100 && p * total <= 100 * used < (p + 1) * total && (p == 100 <==> used == total)
  {
    if used != 0 {
      JavaMath.MulMonotone(100, used, total);
      JavaMath.Wrap64Identity(100 * used);
      JavaMath.DivNonNegative(100 * used, total);
      var q := (100 * used) / total;
      JavaMath.EuclidFacts(100 * used, total);
      JavaMath.DivBetween(100 * used, total, 0, 100);
      JavaMath.Wrap32Identity(q);
      if q == 100 {
        assert 100 * total <= 100 * used;
      }
      if used == total {
        JavaMath.DivExact(100, total);
      }
    }
  }

  /** The `usedResources[key] = 0` loop over the cost's keys. */
  method Zeroes(cost: map<Cargo.Resource, int>) returns (used: map<Cargo.Resource, int>)
    ensures used == map r | r in cost :: 0
  {
    used := map[];
    var i := 0;
    while i < |ResourceMaps.ALL|
      invariant 0 <= i <= |ResourceMaps.ALL|
      invariant used == map r | r in cost && r in ResourceMaps.ALL[..i] :: 0
    {
      var r := ResourceMaps.ALL[i];
      assert ResourceMaps.ALL[..i + 1] == ResourceMaps.ALL[..i] + [r];
      if r in cost {
        used := used[r := 0];
      }
      i := i + 1;
    }
    assert ResourceMaps.ALL[..i] == ResourceMaps.ALL;
    forall r | r in cost
      ensures r in ResourceMaps.ALL
    {
      ResourceMaps.AllListed(r);
    }
  }

  /** An unfinished `Building`: its name and resource cost. */
  class Building {
    var name: string
    var cost: map<Cargo.Resource, int>

    constructor ()
      ensures name == "" && cost == map[]
    {
      name := "";
      cost := map[];
    }
  }

  class Slipway {
    /** The hull being built, if any. */
    var hull: Hulls.ShipHull?
    var hullCost: map<Cargo.Resource, int>
    var usedResources: map<Cargo.Resource, int>

    constructor ()
      ensures hull == null && hullCost == map[] && usedResources == map[]
    {
      hull := null;
      hullCost := map[];
      usedResources := map[];
    }

    /**
     * `build(newHull)`: a slipway already building is an `IllegalStateException`;
     * otherwise it takes the hull and its cost and records 0 used of every
     * resource the hull costs.
     */
    method Build(newHull: Hulls.ShipHull) returns (o: Outcome)
      modifies this
      ensures old(hull) != null ==> o == Fail(IllegalState) && unchanged(this)
      ensures old(hull) == null ==> (o == Pass && hull == newHull && hullCost == Hulls.Costs(newHull.parts) &&
        usedResources == map r | r in hullCost :: 0)
    {
      if hull != null {
        return Fail(IllegalState);
      }
      var cost := newHull.GetCost();
      var zeroes := Zeroes(cost);
      hull := newHull;
      hullCost := cost;
      usedResources := zeroes;
      o := Pass;
    }

    /** `usedResources()`: the sum of the used amounts, as a `Long`. */
    method UsedResources() returns (used: int)
      ensures used == JavaMath.Wrap64(ResourceMaps.Total(usedResources))
    {
      used := ResourceMaps.Sum(usedResources);
    }

    /** `totalCost()`: the sum of the hull's cost, as a `Long`. */
    method TotalCost() returns (total: int)
      ensures total == JavaMath.Wrap64(ResourceMaps.Total(hullCost))
    {
      total := ResourceMaps.Sum(hullCost);
    }

    /** `progress()`: percent of the cost used; a zero total with something used divides by zero. */
    method Progress() returns (r: Result<int>)
      ensures r == ProgressOf(JavaMath.Wrap64(ResourceMaps.Total(usedResources)), JavaMath.Wrap64(ResourceMaps.Total(hullCost)))
    {
      var used := UsedResources();
      if used == 0 {
        return Ok(0);
      }
      var total := TotalCost();
      if total == 0 {
        return Err(Arithmetic);
      }
      r := Ok(JavaMath.Wrap32(JavaMath.Div(JavaMath.Wrap64(100 * used), total)));
    }
  }

  /** A freshly started build has used nothing, so its progress is 0. */
  lemma BuildStartsAtZero(hullCost: map<Cargo.Resource, int>)
    ensures ProgressOf(JavaMath.Wrap64(ResourceMaps.Total(map r | r in hullCost :: 0)), JavaMath.Wrap64(ResourceMaps.Total(hullCost))) == Ok(0)
  {
    ResourceMaps.TotalZero(map r | r in hullCost :: 0);
  }

  /** The three shipyard modifications. */
  datatype Modification =
    | ExpandCapacity(addedCapacity: int)
    | Retool(assignedHull: Hulls.ShipHull)
    | AddSlipway

  /** `getCost(shipyard)`: `Long` products of the size and both multipliers, truncated by 10 or 100. */
  function ModificationCost(m: Modification, capacity: int, slipways: int, t: ShipyardType, l: ShipyardLocation): int
  {
    var mults := t.ModificationMultiplier();
    var multl := l.ModificationMultiplier();
    match m
    case ExpandCapacity(added) =>
      JavaMath.Div(JavaMath.Wrap64(JavaMath.Wrap64(JavaMath.Wrap64(added * slipways) * mults) * multl), 10)
    case Retool(_) =>
      JavaMath.Div(JavaMath.Wrap64(JavaMath.Wrap64(JavaMath.Wrap64(capacity * slipways) * mults) * multl), 100)
    case AddSlipway =>
      JavaMath.Div(JavaMath.Wrap64(JavaMath.Wrap64(capacity * mults) * multl), 10)
  }

  /** The size term each modification scales with, and its divisor. */
  function Size(m: Modification, capacity: int, slipways: int): int
  {
    match m
    case ExpandCapacity(added) => added * slipways
    case Retool(_) => capacity * slipways
    case AddSlipway => capacity
  }

  function Divisor(m: Modification): int
  {
    if m.Retool? then 100 else 10
  }

  /** Below overflow, the `Long` products are exact: the cost is size times both multipliers over the divisor. */
  lemma ModificationCostExact(m: Modification, capacity: int, slipways: int, t: ShipyardType, l: ShipyardLocation)
    requires 0 <= Size(m, capacity, slipways) && 0 <= capacity && 0 <= slipways
    requires Size(m, capacity, slipways) * 150 * 120 <= JavaMath.LONG_MAX
    ensures ModificationCost(m, capacity, slipways, t, l) ==
      Size(m, capacity, slipways) * t.ModificationMultiplier() * l.ModificationMultiplier() / Divisor(m)
    ensures ModificationCost(m, capacity, slipways, t, l) >= 0
  {
    var s := Size(m, capacity, slipways);
    var a, b := t.ModificationMultiplier(), l.ModificationMultiplier();
    JavaMath.MulMonotone(s, a, 150);
    JavaMath.MulMonotone(s * a, b, 120);
    JavaMath.MulMonotone(s * 150, 120, 120);
    if !m.AddSlipway? {
      JavaMath.Wrap64Identity(s);
    }
    JavaMath.Wrap64Identity(s * a);
    JavaMath.Wrap64Identity(s * a * b);
    JavaMath.DivNonNegative(s * a * b, Divisor(m));
  }

  /**
   * Below overflow, a military yard costs at least as much to modify as a
   * civilian one, and an orbital yard at least as much as a terrestrial one.
   */
  lemma ModificationCostOrder(m: Modification, capacity: int, slipways: int, t: ShipyardType, l: ShipyardLocation)
    requires 0 <= Size(m, capacity, slipways) && 0 <= capacity && 0 <= slipways
    requires Size(m, capacity, slipways) * 150 * 120 <= JavaMath.LONG_MAX
    ensures ModificationCost(m, capacity, slipways, Civilian, l) <= ModificationCost(m, capacity, slipways, Military, l)
    ensures ModificationCost(m, capacity, slipways, t, Terrestial) <= ModificationCost(m, capacity, slipways, t, Orbital)
  {
    var s, d := Size(m, capacity, slipways), Divisor(m);
    var a, b := t.ModificationMultiplier(), l.ModificationMultiplier();
    assert ModificationCost(m, capacity, slipways, Civilian, l) <= ModificationCost(m, capacity, slipways, Military, l) by {
      ModificationCostExact(m, capacity, slipways, Civilian, l);
      ModificationCostExact(m, capacity, slipways, Military, l);
      ScaledOrder(s, 100, 150, b, b, d);
    }
    assert ModificationCost(m, capacity, slipways, t, Terrestial) <= ModificationCost(m, capacity, slipways, t, Orbital) by {
      ModificationCostExact(m, capacity, slipways, t, Terrestial);
      ModificationCostExact(m, capacity, slipways, t, Orbital);
      ScaledOrder(s, a, a, 100, 120, d);
    }
  }

  /** A larger multiplier never lowers a non-negative cost after the division. */
  lemma ScaledOrder(s: int, a1: int, a2: int, b1: int, b2: int, d: int)
    requires s >= 0 && 0 <= a1 <= a2 && 0 <= b1 <= b2 && d > 0
    ensures s * a1 * b1 / d <= s * a2 * b2 / d
  {
    JavaMath.MulMonotone(s, a1, a2);
    JavaMath.MulMonotone(s, 0, a1);
    JavaMath.MulMonotone(s * a1, b1, b2);
    JavaMath.MulMonotone(s * a1, 0, b1);
    JavaMath.MulMonotone(b2, s * a1, s * a2);
    assert s * a1 * b2 <= s * a2 * b2;
    JavaMath.DivMonotone(s * a1 * b1, s * a2 * b2, d);
  }


  class Shipyard {
    const location: ShipyardLocation
    const shipyardType: ShipyardType
    /** cm³. */
    var capacity: int
    /** kg per hour. */
    var buildRate: int
    var tooledHull: Hulls.ShipHull?
    var slipways: seq<Slipway>
    var modificationActivity: Option<Modification>
    /** kg per hour. */
    var modificationRate: int
    var modificationProgress: int

    constructor (location: ShipyardLocation, shipyardType: ShipyardType)
      ensures this.location == location && this.shipyardType == shipyardType
      ensures capacity == 1000 && buildRate == location.BaseBuildrate() && tooledHull == null
      ensures slipways == [] && modificationActivity == None
      ensures modificationRate == 1000 && modificationProgress == 0
    {
      this.location := location;
      this.shipyardType := shipyardType;
      capacity := 1000;
      buildRate := location.BaseBuildrate();
      tooledHull := null;
      slipways := [];
      modificationActivity := None;
      modificationRate := 1000;
      modificationProgress := 0;
    }

    /** `getCost(this)` of a modification, from the current capacity and slipway count. */
    function Cost(m: Modification): int
      reads this
    {
      ModificationCost(m, capacity, |slipways|, shipyardType, location)
    }

    /**
     * `complete(this)`: expanding adds the capacity (a `Long` sum), retooling
     * sets the tooled hull, adding a slipway appends a new empty one.
     */
    method Complete(m: Modification)
      modifies this
      ensures buildRate == old(buildRate) && modificationActivity == old(modificationActivity)
      ensures modificationRate == old(modificationRate) && modificationProgress == old(modificationProgress)
      ensures m.ExpandCapacity? ==> (capacity == JavaMath.Wrap64(old(capacity) + m.addedCapacity) &&
        tooledHull == old(tooledHull) && slipways == old(slipways))
      ensures m.Retool? ==> capacity == old(capacity) && tooledHull == m.assignedHull && slipways == old(slipways)
      ensures m.AddSlipway? ==> (capacity == old(capacity) && tooledHull == old(tooledHull) &&
        |slipways| == |old(slipways)| + 1 && slipways[..|old(slipways)|] == old(slipways) &&
        fresh(slipways[|old(slipways)|]) && slipways[|old(slipways)|].hull == null &&
        slipways[|old(slipways)|].hullCost == map[] && slipways[|old(slipways)|].usedResources == map[])
    {
      match m
      case ExpandCapacity(added) =>
        capacity := JavaMath.Wrap64(capacity + added);
      case Retool(h) =>
        tooledHull := h;
      case AddSlipway =>
        var s := new Slipway();
        slipways := slipways + [s];
    }
  }

  /**
   * Below overflow, every modification costs at least as much on a larger
   * yard (more capacity, more slipways, or more capacity added).
   */
  lemma CostGrowsWithSize(m: Modification, capacity: int, slipways: int, capacity2: int, slipways2: int,
                          t: ShipyardType, l: ShipyardLocation)
    requires 0 <= capacity <= capacity2 && 0 <= slipways <= slipways2
    requires 0 <= Size(m, capacity, slipways) <= Size(m, capacity2, slipways2)
    requires Size(m, capacity2, slipways2) * 150 * 120 <= JavaMath.LONG_MAX
    ensures ModificationCost(m, capacity, slipways, t, l) <= ModificationCost(m, capacity2, slipways2, t, l)
  {
    var a, b := t.ModificationMultiplier(), l.ModificationMultiplier();
    var s, s2 := Size(m, capacity, slipways), Size(m, capacity2, slipways2);
    JavaMath.MulMonotone(s, 150, 150);
    JavaMath.MulMonotone(150, s, s2);
    JavaMath.MulMonotone(120, s * 150, s2 * 150);
    ModificationCostExact(m, capacity, slipways, t, l);
    ModificationCostExact(m, capacity2, slipways2, t, l);
    JavaMath.MulMonotone(a, s, s2);
    JavaMath.MulMonotone(b, s * a, s2 * a);
    JavaMath.DivMonotone(s * a * b, s2 * a * b, Divisor(m));
  }

  class ColonyComponent {
    var population: int
    var housingLandArea: int
    var farmingLandArea: int
    /** Pollutes water. */
    var industrialLandArea: int
    /** Pollutes water. */
    var miningLandArea: int
    var buildings: seq<Building>
    var shipyards: seq<Shipyard>

    constructor ()
      ensures population == 0 && housingLandArea == 0 && farmingLandArea == 0
      ensures industrialLandArea == 0 && miningLandArea == 0
      ensures buildings == [] && shipyards == []
    {
      population := 0;
      housingLandArea := 0;
      farmingLandArea := 0;
      industrialLandArea := 0;
      miningLandArea := 0;
      buildings := [];
      shipyards := [];
    }

    /** `set(...)`: the four given values replace population and three land areas; returns `this`. */
    method Set(population: int, housingLandArea: int, farmingLandArea: int, industrialLandArea: int)
      returns (self: ColonyComponent)
      modifies this
      ensures self == this
      ensures this.population == population && this.housingLandArea == housingLandArea
      ensures this.farmingLandArea == farmingLandArea && this.industrialLandArea == industrialLandArea
      ensures miningLandArea == old(miningLandArea)
      ensures buildings == old(buildings) && shipyards == old(shipyards)
    {
      this.population := population;
      this.housingLandArea := housingLandArea;
      this.farmingLandArea := farmingLandArea;
      this.industrialLandArea := industrialLandArea;
      self := this;
    }

    /**
     * `copy(c)`: `set` with this colony's four values, then the same buildings
     * and the same shipyard objects; the mining land area is not copied.
     */
    method Copy(c: ColonyComponent)
      modifies c
      ensures c.population == old(population) && c.housingLandArea == old(housingLandArea)
      ensures c.farmingLandArea == old(farmingLandArea) && c.industrialLandArea == old(industrialLandArea)
      ensures c.miningLandArea == old(c.miningLandArea)
      ensures c.buildings == old(buildings) && c.shipyards == old(shipyards)
    {
      var p, h, f, i := population, housingLandArea, farmingLandArea, industrialLandArea;
      var b, s := buildings, shipyards;
      var _ := c.Set(p, h, f, i);
      c.buildings := b;
      c.shipyards := s;
    }

    /** The corrected `copy`: as above, and the mining land area as well. */
    method CopyAll(c: ColonyComponent)
      modifies c
      ensures c.population == old(population) && c.housingLandArea == old(housingLandArea)
      ensures c.farmingLandArea == old(farmingLandArea) && c.industrialLandArea == old(industrialLandArea)
      ensures c.miningLandArea == old(miningLandArea)
      ensures c.buildings == old(buildings) && c.shipyards == old(shipyards)
    {
      var m := miningLandArea;
      Copy(c);
      c.miningLandArea := m;
    }
  }

  /**
   * `copy` leaves a target's mining land area as it was: copying a colony
   * with 5 into one with 0 leaves 0.
   */
  method CopyDropsMining() returns (source: ColonyComponent, target: ColonyComponent)
    ensures source.miningLandArea == 5 && target.miningLandArea == 0
  {
    source := new ColonyComponent();
    source.miningLandArea := 5;
    target := new ColonyComponent();
    source.Copy(target);
  }
}
