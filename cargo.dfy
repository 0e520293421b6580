/**
 * `CargoComponent`: a ship's or colony's holds. There is one container per
 * cargo type; every resource of that type is stored in it, and the
 * component's resource map sends each registered resource to its type's
 * container. Volumes are in cm³ and amounts and masses are `Long`s.
 */
module Cargo {
  import opened Wrappers
  import JavaMath

  datatype Resource =
    | Generic | MetalLight | MetalConductive | Semiconductors | RareEarth | MaintenanceSupplies
    | NuclearFission | NuclearFusion | RocketFuel | LifeSupport | Missiles | Sabots | Items

  datatype CargoType = Normal | Ammunition | Fuel | LifeSupportType | NuclearType

  /** `CargoType.resources`, in declaration order. */
  function TypeResources(t: CargoType): seq<Resource>
  {
    match t
    case Normal => [MaintenanceSupplies, Generic, MetalLight, MetalConductive, Semiconductors, RareEarth, Items]
    case Ammunition => [Missiles, Sabots]
    case Fuel => [RocketFuel]
    case LifeSupportType => [LifeSupport]
    case NuclearType => [NuclearFission, NuclearFusion]
  }

  /** The cargo type whose resource list holds `r`. */
  function TypeOf(r: Resource): (t: CargoType)
    ensures r in TypeResources(t)
  {
    match r
    case MaintenanceSupplies | Generic | MetalLight | MetalConductive | Semiconductors | RareEarth | Items => Normal
    case Missiles | Sabots => Ammunition
    case RocketFuel => Fuel
    case LifeSupport => LifeSupportType
    case NuclearFission | NuclearFusion => NuclearType
  }

  /** Every resource belongs to exactly one cargo type. */
  lemma TypeOfUnique(r: Resource, t: CargoType)
    ensures r in TypeResources(t) <==> t == TypeOf(r)
  {
  }

  /** The order in which `set` creates the containers. */
  const ContainerOrder: seq<CargoType> := [Normal, LifeSupportType, Fuel, Ammunition, NuclearType]

  /** Every cargo type has a container in `set`. */
  lemma ContainerOrderComplete(t: CargoType)
    ensures t in ContainerOrder
  {
  }

  /** The resources of one type, all registered. */
  function ResourcesOf(t: CargoType): set<Resource>
  {
    set r | r in TypeResources(t)
  }

  /** A container part of a hull: its capacity (`Int`, cm³) and cargo type. */
  datatype ContainerPart = ContainerPart(capacity: int, cargoType: CargoType)

  /** `CargoContainer`: the limit, the volume used and the amount of each of its type's resources. */
  datatype Container = Container(maxVolume: int, usedVolume: int, contents: map<Resource, int>)

  /** A new `CargoContainer(type)` with the given limit: empty, every resource of the type at 0. */
  function Empty(t: CargoType, maxVolume: int): (c: Container)
    ensures c.contents.Keys == ResourcesOf(t) && c.usedVolume == 0
  {
    Container(maxVolume, 0, map r | r in ResourcesOf(t) :: 0)
  }

  /** The sum of the capacities of the parts of type `t`, exactly. */
  function Capacity(parts: seq<ContainerPart>, t: CargoType): int
  {
    if parts == [] then 0
    else Capacity(parts[..|parts| - 1], t) + (if parts[|parts| - 1].cargoType == t then parts[|parts| - 1].capacity else 0)
  }

  /** A munition design as stored: the resource it is stored as, its volume and its loaded mass. */
  datatype MunitionHull = MunitionHull(name: string, storageType: Resource, volume: int, loadedMass: int)

  /** The total of the amounts of the registered resources among `rs`, exactly. */
  function Total(rs: seq<Resource>, registered: set<Resource>, types: map<CargoType, Container>): int
  {
    if rs == [] then 0
    else
      var r := rs[|rs| - 1];
      var rest := Total(rs[..|rs| - 1], registered, types);
      if r in registered && TypeOf(r) in types && r in types[TypeOf(r)].contents then rest + types[TypeOf(r)].contents[r]
      else rest
  }

  /** Every resource, in declaration order. */
  const AllResources: seq<Resource> := [Generic, MetalLight, MetalConductive, Semiconductors, RareEarth,
    MaintenanceSupplies, NuclearFission, NuclearFusion, RocketFuel, LifeSupport, Missiles, Sabots, Items]

  /** A container with the volume used and one resource's amount replaced; it holds the same resources. */
  function Updated(c: Container, r: Resource, used: int, amount: int): (d: Container)
    ensures d.contents.Keys == c.contents.Keys + {r} && d.maxVolume == c.maxVolume
  {
    c.(usedVolume := used, contents := c.contents[r := amount])
  }

  /** The same limit for every cargo type. */
  function Uniform(v: int): (caps: map<CargoType, int>)
    ensures forall t :: t in caps && caps[t] == v
  {
    assert forall t :: t in ContainerOrder by {
      forall t: CargoType
        ensures t in ContainerOrder
      {
        ContainerOrderComplete(t);
      }
    }
    map t | t in ContainerOrder :: v
  }

  /** `set(hull)`'s first loop: each part's capacity added to its type's `Long` limit. */
  function Capacities(parts: seq<ContainerPart>): (caps: map<CargoType, int>)
    ensures forall t :: t in caps
  {
    if parts == [] then Uniform(0)
    else
      var caps := Capacities(parts[..|parts| - 1]);
      var p := parts[|parts| - 1];
      caps[p.cargoType := JavaMath.Wrap64(caps[p.cargoType] + p.capacity)]
  }

  /** The loop that computes `Capacities`: each part's capacity added in turn, with `Long` wrap-around. */
  method SumCapacities(parts: seq<ContainerPart>) returns (caps: map<CargoType, int>)
    ensures caps == Capacities(parts)
  {
    caps := Uniform(0);
    var i := 0;
    while i < |parts|
      invariant 0 <= i <= |parts|
      invariant caps == Capacities(parts[..i])
    {
      assert parts[..i + 1][..i] == parts[..i];
      var p := parts[i];
      caps := caps[p.cargoType := JavaMath.Wrap64(caps[p.cargoType] + p.capacity)];
      i := i + 1;
    }
    assert parts[..|parts|] == parts;
  }

  /** Each limit is the exact sum of its type's capacities, wrapped once to a `Long`. */
  lemma {:induction false} CapacitiesSum(parts: seq<ContainerPart>, t: CargoType)
    ensures Capacities(parts)[t] == JavaMath.Wrap64(Capacity(parts, t))
  {
    if parts == [] {
      JavaMath.Wrap64Identity(0);
    } else {
      var init := parts[..|parts| - 1];
      CapacitiesSum(init, t);
      JavaMath.Wrap64Sum(Capacity(init, t), parts[|parts| - 1].capacity);
    }
  }

  /** `set(colony)`'s limits: `Long.MAX_VALUE` for every type. */
  const ColonyCapacity: map<CargoType, int> := Uniform(JavaMath.LONG_MAX)

  /** The containers after `set` has gone through the first `k` types of `ContainerOrder`. */
  function Installed(types: map<CargoType, Container>, caps: map<CargoType, int>, k: nat): map<CargoType, Container>
    requires k <= |ContainerOrder| && forall t :: t in caps
  {
    if k == 0 then types
    else
      var t := ContainerOrder[k - 1];
      var m := Installed(types, caps, k - 1);
      if caps[t] > 0 then m[t := Empty(t, caps[t])] else m
  }

  /** The registered resources after `set` has gone through the first `k` types of `ContainerOrder`. */
  function Registered(resources: set<Resource>, caps: map<CargoType, int>, k: nat): set<Resource>
    requires k <= |ContainerOrder| && forall t :: t in caps
  {
    if k == 0 then resources
    else
      var t := ContainerOrder[k - 1];
      var s := Registered(resources, caps, k - 1);
      if caps[t] > 0 then s + ResourcesOf(t) else s
  }

  /**
   * After all five types: a type has a container if it had one or has room
   * now, and each type with room has a fresh empty container of that size;
   * the resources of the types with room are registered, the others keep
   * their registration.
   */
  lemma {:induction false} InstalledMeaning(types: map<CargoType, Container>, resources: set<Resource>,
                                            caps: map<CargoType, int>, k: nat)
    requires k <= |ContainerOrder| && forall t :: t in caps
    ensures forall t :: t in Installed(types, caps, k) <==> t in types || (t in ContainerOrder[..k] && caps[t] > 0)
    ensures forall t :: t in Installed(types, caps, k) ==> (Installed(types, caps, k)[t] ==
      if t in ContainerOrder[..k] && caps[t] > 0 then Empty(t, caps[t]) else types[t])
    ensures forall r :: r in Registered(resources, caps, k) <==>
      r in resources || (TypeOf(r) in ContainerOrder[..k] && caps[TypeOf(r)] > 0)
  {
    if k > 0 {
      InstalledMeaning(types, resources, caps, k - 1);
      var t := ContainerOrder[k - 1];
      assert ContainerOrder[..k] == ContainerOrder[..k - 1] + [t];
      forall r
        ensures r in ResourcesOf(t) <==> TypeOf(r) == t
      {
        TypeOfUnique(r, t);
      }
    }
  }

  /** Installing containers keeps every container holding exactly its type's resources. */
  lemma {:induction false} InstalledKeys(types: map<CargoType, Container>, caps: map<CargoType, int>, k: nat)
    requires k <= |ContainerOrder| && forall t :: t in caps
    requires forall t :: t in types ==> types[t].contents.Keys == ResourcesOf(t)
    ensures forall t :: t in Installed(types, caps, k) ==> Installed(types, caps, k)[t].contents.Keys == ResourcesOf(t)
  {
    if k > 0 {
      InstalledKeys(types, caps, k - 1);
    }
  }

  /** A registered resource's type always has a container. */
  lemma {:induction false} RegisteredHaveContainers(types: map<CargoType, Container>, resources: set<Resource>,
                                                    caps: map<CargoType, int>, k: nat)
    requires k <= |ContainerOrder| && forall t :: t in caps
    requires forall r :: r in resources ==> TypeOf(r) in types
    ensures forall r :: r in Registered(resources, caps, k) ==> TypeOf(r) in Installed(types, caps, k)
  {
    if k > 0 {
      RegisteredHaveContainers(types, resources, caps, k - 1);
      var t := ContainerOrder[k - 1];
      forall r | r in ResourcesOf(t)
        ensures TypeOf(r) == t
      {
        TypeOfUnique(r, t);
      }
    }
  }

  /** Installing never unregisters a resource. */
  lemma {:induction false} RegisteredGrows(resources: set<Resource>, caps: map<CargoType, int>, k: nat)
    requires k <= |ContainerOrder| && forall t :: t in caps
    ensures resources <= Registered(resources, caps, k)
  {
    if k > 0 {
      RegisteredGrows(resources, caps, k - 1);
    }
  }

  /** After `set(colony)` every type has an empty container of `Long.MAX_VALUE` cm³ and every resource is registered. */
  lemma ColonyHoldsEverything(types: map<CargoType, Container>, resources: set<Resource>)
    ensures forall t :: (t in Installed(types, ColonyCapacity, |ContainerOrder|)
      && Installed(types, ColonyCapacity, |ContainerOrder|)[t] == Empty(t, JavaMath.LONG_MAX))
    ensures forall r :: r in Registered(resources, ColonyCapacity, |ContainerOrder|)
  {
    InstalledMeaning(types, resources, ColonyCapacity, |ContainerOrder|);
    assert ContainerOrder[..|ContainerOrder|] == ContainerOrder;
    forall t: CargoType
      ensures t in ContainerOrder && ColonyCapacity[t] > 0
    {
      ContainerOrderComplete(t);
    }
  }

  /** `amount * specificVolume` on `Long`s: the volume a number of units takes. */
  function Volume(amount: int, perUnit: int): int
  {
    JavaMath.Wrap64(amount * perUnit)
  }

  /**
   * `addCargo`'s store into a container: `volume` more cm³ and `amount` more
   * of `r`, both on wrapping `Long`s, unless the used volume would pass the
   * limit, which stores nothing.
   */
  function Store(c: Container, r: Resource, volume: int, amount: int): (d: Option<Container>)
    requires r in c.contents
    ensures d.Some? <==> JavaMath.Wrap64(c.usedVolume + volume) <= c.maxVolume
    ensures d.Some? ==> d.value.usedVolume <= d.value.maxVolume == c.maxVolume
    ensures d.Some? ==> d.value.contents.Keys == c.contents.Keys
  {
    var used := JavaMath.Wrap64(c.usedVolume + volume);
    if used > c.maxVolume then None else Some(Updated(c, r, used, JavaMath.Wrap64(c.contents[r] + amount)))
  }

  /** `retrieveCargo`'s take from a container: `volume` fewer cm³ and `amount` less of `r`, on wrapping `Long`s. */
  function Take(c: Container, r: Resource, volume: int, amount: int): (d: Container)
    requires r in c.contents
    ensures d.contents.Keys == c.contents.Keys && d.maxVolume == c.maxVolume
  {
    Updated(c, r, JavaMath.Wrap64(c.usedVolume - volume), JavaMath.Wrap64(c.contents[r] - amount))
  }

  /**
   * Taking back what was just stored restores the container, whenever its
   * volume and amount are `Long`s to begin with.
   */
  lemma StoreThenTake(c: Container, r: Resource, volume: int, amount: int)
    requires r in c.contents && JavaMath.IsLong(c.usedVolume) && JavaMath.IsLong(c.contents[r])
    requires Store(c, r, volume, amount).Some?
    ensures Take(Store(c, r, volume, amount).value, r, volume, amount) == c
  {
    var d := Store(c, r, volume, amount).value;
    JavaMath.Wrap64Sum(c.usedVolume + volume, -volume);
    JavaMath.Wrap64Identity(c.usedVolume);
    JavaMath.Wrap64Sum(c.contents[r] + amount, -amount);
    JavaMath.Wrap64Identity(c.contents[r]);
    assert Take(d, r, volume, amount).contents == c.contents;
  }

  /** The stored count of a munition, 0 when it has none. */
  function Count(munitions: map<MunitionHull, int>, m: MunitionHull): int
  {
    if m in munitions then munitions[m] else 0
  }

  class CargoComponent {
    var hullHashcode: int
    /** The key set of `resources`; each key's container is `types[TypeOf(key)]`. */
    var resources: set<Resource>
    var types: map<CargoType, Container>
    var munitions: map<MunitionHull, int>
    var cargoChanged: bool
    /** The cached mass, or -1 when it must be recomputed. */
    var mass: int

    /**
     * Each container holds exactly its type's resources; a registered
     * resource's type has a container; a stored munition's storage resource
     * is registered.
     */
    ghost predicate Valid()
      reads this
    {
      (forall t :: t in types ==> types[t].contents.Keys == ResourcesOf(t))
      && (forall r :: r in resources ==> TypeOf(r) in types)
      && (forall m :: m in munitions ==> m.storageType in resources)
    }

    /** The container a registered resource is stored in. */
    function Hold(r: Resource): (c: Container)
      requires Valid() && r in resources
      reads this
      ensures r in c.contents
    {
      types[TypeOf(r)]
    }

    /** The mass the getter computes: the sum of the amounts of the registered resources, as a `Long`. */
    function CargoMass(): int
      reads this
    {
      JavaMath.Wrap64(Total(AllResources, resources, types))
    }

    /** The cached mass is unset or current. */
    ghost predicate CacheCoherent()
      reads this
    {
      mass == -1 || mass == CargoMass()
    }

    /** `CargoComponent()`: no containers, no munitions, mass not computed. */
    constructor ()
      ensures Valid() && CacheCoherent()
      ensures hullHashcode == 0 && resources == {} && types == map[] && munitions == map[]
      ensures !cargoChanged && mass == -1
    {
      hullHashcode := 0;
      resources, types, munitions := {}, map[], map[];
      cargoChanged := false;
      mass := -1;
    }

    /**
     * `set(hull)` with the hull's container parts: a hull without any is an
     * `InvalidParameterException`; otherwise the containers are installed
     * with the summed capacities and the hull's hash is recorded. The cached
     * mass is left as it was.
     */
    method SetHull(parts: seq<ContainerPart>, hullHash: int) returns (o: Outcome)
      requires Valid()
      modifies this
      ensures Valid() && munitions == old(munitions) && mass == old(mass)
      ensures parts == [] ==> (o == Fail(InvalidParameter) && hullHashcode == old(hullHashcode)
        && resources == old(resources) && types == old(types) && cargoChanged == old(cargoChanged))
      ensures parts != [] ==> (o == Pass && hullHashcode == hullHash && cargoChanged
        && types == Installed(old(types), Capacities(parts), |ContainerOrder|)
        && resources == Registered(old(resources), Capacities(parts), |ContainerOrder|))
    {
      if parts == [] {
        return Fail(InvalidParameter);
      }
      hullHashcode := hullHash;
      cargoChanged := true;
      var caps := SumCapacities(parts);
      Install(caps);
      o := Pass;
    }

    /** `set(colony)`: a container of `Long.MAX_VALUE` cm³ for every cargo type. */
    method SetColony(colonyHash: int)
      requires Valid()
      modifies this
      ensures Valid() && hullHashcode == colonyHash && cargoChanged
      ensures types == Installed(old(types), ColonyCapacity, |ContainerOrder|)
      ensures resources == Registered(old(resources), ColonyCapacity, |ContainerOrder|)
      ensures munitions == old(munitions) && mass == old(mass)
    {
      hullHashcode := colonyHash;
      cargoChanged := true;
      Install(ColonyCapacity);
    }

    /** The second loop of both `set`s: a fresh container for each type with room, in `ContainerOrder`. */
    method Install(caps: map<CargoType, int>)
      requires Valid() && forall t :: t in caps
      modifies this
      ensures Valid()
      ensures types == Installed(old(types), caps, |ContainerOrder|)
      ensures resources == Registered(old(resources), caps, |ContainerOrder|)
      ensures munitions == old(munitions) && mass == old(mass)
      ensures hullHashcode == old(hullHashcode) && cargoChanged == old(cargoChanged)
    {
      ghost var types0, resources0 := types, resources;
      var k := 0;
      while k < |ContainerOrder|
        invariant 0 <= k <= |ContainerOrder|
        invariant types == Installed(types0, caps, k) && resources == Registered(resources0, caps, k)
        invariant munitions == old(munitions) && mass == old(mass)
        invariant hullHashcode == old(hullHashcode) && cargoChanged == old(cargoChanged)
      {
        var t := ContainerOrder[k];
        if caps[t] > 0 {
          types := types[t := Empty(t, caps[t])];
          resources := resources + ResourcesOf(t);
        }
        k := k + 1;
      }
      InstalledKeys(types0, caps, k);
      RegisteredHaveContainers(types0, resources0, caps, k);
      RegisteredGrows(resources0, caps, k);
    }

    /** `getCargoAmount(resource)`: the stored amount, or 0 for a resource without a container. */
    function Amount(r: Resource): (a: int)
      requires Valid()
      reads this
      ensures r !in resources ==> a == 0
      ensures r in resources ==> a == Hold(r).contents[r]
    {
      if r in resources then types[TypeOf(r)].contents[r] else 0
    }

    /** `getCargoAmount(munitionHull)`: the stored count, or 0 when unknown or its storage has no container. */
    function MunitionAmount(m: MunitionHull): (a: int)
      reads this
      ensures m.storageType !in resources || m !in munitions ==> a == 0
      ensures m.storageType in resources && m in munitions ==> a == munitions[m]
    {
      if m.storageType in resources && m in munitions then munitions[m] else 0
    }

    /** `getUsedCargoVolume(resource)`: the volume used in its container, or 0. */
    function UsedVolume(r: Resource): (v: int)
      requires Valid()
      reads this
      ensures v == if r in resources then Hold(r).usedVolume else 0
    {
      if r in resources then types[TypeOf(r)].usedVolume else 0
    }

    /** `getMaxCargoVolume(resource)`: its container's limit, or 0. */
    function MaxVolume(r: Resource): (v: int)
      requires Valid()
      reads this
      ensures v == if r in resources then Hold(r).maxVolume else 0
    {
      if r in resources then types[TypeOf(r)].maxVolume else 0
    }

    /**
     * `addCargo(resource, amount)`, with `specificVolume` the resource's cm³
     * per unit: zero is an `InvalidParameterException`; no container, or
     * too little room, stores nothing and answers false; otherwise the
     * container takes the store and the cached mass is dropped.
     */
    method AddCargo(r: Resource, specificVolume: int, amount: int) returns (res: Result<bool>)
      requires Valid()
      modifies this
      ensures Valid() && munitions == old(munitions) && resources == old(resources) && hullHashcode == old(hullHashcode)
      ensures specificVolume == 0 ==> res == Err(InvalidParameter)
      ensures specificVolume != 0 ==>
        res == Ok(r in resources && Store(old(types[TypeOf(r)]), r, Volume(amount, specificVolume), amount).Some?)
      ensures res == Ok(true) ==> (cargoChanged && mass == -1 && types ==
        old(types)[TypeOf(r) := Store(old(types[TypeOf(r)]), r, Volume(amount, specificVolume), amount).value])
      ensures res != Ok(true) ==> (types == old(types) && mass == old(mass) && cargoChanged == old(cargoChanged))
    {
      if specificVolume == 0 {
        return Err(InvalidParameter);
      }
      if r !in resources {
        return Ok(false);
      }
      var t := TypeOf(r);
      var stored := Store(types[t], r, Volume(amount, specificVolume), amount);
      if stored.None? {
        return Ok(false);
      }
      types := types[t := stored.value];
      MassChange();
      return Ok(true);
    }

    /**
     * `retrieveCargo(resource, amount)`: zero `specificVolume` is an
     * `InvalidParameterException`; nothing stored gives 0; otherwise at most
     * the stored amount is taken out, with its volume.
     */
    method RetrieveCargo(r: Resource, specificVolume: int, amount: int) returns (res: Result<int>)
      requires Valid()
      modifies this
      ensures Valid() && munitions == old(munitions) && resources == old(resources) && hullHashcode == old(hullHashcode)
      ensures specificVolume == 0 ==> res == Err(InvalidParameter)
      ensures specificVolume != 0 ==> res == Ok(if old(Amount(r)) == 0 then 0 else JavaMath.Min(old(Amount(r)), amount))
      ensures res.Err? || old(Amount(r)) == 0 ==>
        (types == old(types) && mass == old(mass) && cargoChanged == old(cargoChanged))
      ensures res.Ok? && old(Amount(r)) != 0 ==> (cargoChanged && mass == -1 && types ==
        old(types)[TypeOf(r) := Take(old(types[TypeOf(r)]), r, Volume(res.value, specificVolume), res.value)])
    {
      if specificVolume == 0 {
        return Err(InvalidParameter);
      }
      if r !in resources {
        return Ok(0);
      }
      var t := TypeOf(r);
      var available := types[t].contents[r];
      if available == 0 {
        return Ok(0);
      }
      var taken := amount;
      if available < amount {
        taken := available;
      }
      types := types[t := Take(types[t], r, Volume(taken, specificVolume), taken)];
      MassChange();
      return Ok(taken);
    }

    /**
     * `addCargo(munitionHull, amount)`: stored in its storage resource's
     * container, taking `amount * volume` cm³ and adding
     * `loadedMass * amount` to that resource; the count is an `Int`.
     */
    method AddMunition(m: MunitionHull, amount: int) returns (added: bool)
      requires Valid()
      modifies this
      ensures Valid() && resources == old(resources) && hullHashcode == old(hullHashcode)
      ensures added == (m.storageType in resources && Store(old(types[TypeOf(m.storageType)]), m.storageType,
        Volume(amount, m.volume), Volume(amount, m.loadedMass)).Some?)
      ensures added ==> (cargoChanged && mass == -1
        && munitions == old(munitions)[m := JavaMath.Wrap32(Count(old(munitions), m) + amount)]
        && types == old(types)[TypeOf(m.storageType) := Store(old(types[TypeOf(m.storageType)]), m.storageType,
             Volume(amount, m.volume), Volume(amount, m.loadedMass)).value])
      ensures !added ==> (types == old(types) && munitions == old(munitions) && mass == old(mass)
        && cargoChanged == old(cargoChanged))
    {
      var s := m.storageType;
      if s !in resources {
        return false;
      }
      var t := TypeOf(s);
      var stored := Store(types[t], s, Volume(amount, m.volume), Volume(amount, m.loadedMass));
      if stored.None? {
        return false;
      }
      var count := JavaMath.Wrap32(Count(munitions, m) + amount);
      munitions := munitions[m := count];
      types := types[t := stored.value];
      MassChange();
      return true;
    }

    /**
     * `retrieveCargo(munitionHull, amount)`: none stored gives 0; otherwise
     * at most the stored count is taken, and its mass and volume leave the
     * storage container.
     */
    method RetrieveMunition(m: MunitionHull, amount: int) returns (taken: int)
      requires Valid()
      modifies this
      ensures Valid() && resources == old(resources) && hullHashcode == old(hullHashcode)
      ensures taken == if Count(old(munitions), m) == 0 then 0 else JavaMath.Min(Count(old(munitions), m), amount)
      ensures Count(old(munitions), m) == 0 ==>
        (types == old(types) && munitions == old(munitions) && mass == old(mass) && cargoChanged == old(cargoChanged))
      ensures Count(old(munitions), m) != 0 ==> (cargoChanged && mass == -1
        && munitions == old(munitions)[m := JavaMath.Wrap32(Count(old(munitions), m) - taken)]
        && types == old(types)[TypeOf(m.storageType) := Take(old(types[TypeOf(m.storageType)]), m.storageType,
             Volume(taken, m.volume), Volume(taken, m.loadedMass))])
    {
      var available := Count(munitions, m);
      if available == 0 {
        return 0;
      }
      taken := amount;
      if available < amount {
        taken := available;
      }
      munitions := munitions[m := JavaMath.Wrap32(available - taken)];
      var s := m.storageType;
      var t := TypeOf(s);
      types := types[t := Take(types[t], s, Volume(taken, m.volume), Volume(taken, m.loadedMass))];
      MassChange();
    }

    /** `massChange()`: the cargo changed and the cached mass is dropped. */
    method MassChange()
      modifies this
      ensures cargoChanged && mass == -1 && CacheCoherent()
      ensures hullHashcode == old(hullHashcode) && resources == old(resources) && types == old(types)
      ensures munitions == old(munitions)
    {
      cargoChanged := true;
      mass := -1;
    }

    /** `calculateCargoMass()`: the amounts of the registered resources, summed on `Long`s. */
    method CalculateMass() returns (total: int)
      ensures total == CargoMass()
    {
      total := 0;
      var i := 0;
      while i < |AllResources|
        invariant 0 <= i <= |AllResources|
        invariant total == JavaMath.Wrap64(Total(AllResources[..i], resources, types))
      {
        var r := AllResources[i];
        assert AllResources[..i + 1][..i] == AllResources[..i];
        if r in resources && TypeOf(r) in types && r in types[TypeOf(r)].contents {
          JavaMath.Wrap64Sum(Total(AllResources[..i], resources, types), types[TypeOf(r)].contents[r]);
          total := JavaMath.Wrap64(total + types[TypeOf(r)].contents[r]);
        }
        i := i + 1;
      }
      assert AllResources[..i] == AllResources;
    }

    /**
     * The `mass` getter: recomputed when unset, and then cached; a cache
     * that was set is returned as it is, even when the containers have since
     * been replaced (both `set`s leave it alone), so the mass is current
     * exactly when the cache was unset or current.
     */
    method Mass() returns (m: int)
      modifies this
      ensures m == (if old(mass) == -1 then CargoMass() else old(mass)) && mass == m
      ensures old(CacheCoherent()) ==> m == CargoMass() && CacheCoherent()
      ensures hullHashcode == old(hullHashcode) && resources == old(resources) && types == old(types)
      ensures munitions == old(munitions) && cargoChanged == old(cargoChanged)
    {
      if mass == -1 {
        mass := CalculateMass();
      }
      return mass;
    }
  }

  /** Storing an amount that fits and taking the same amount back restores the hold and answers the full amount. */
  method AddThenRetrieve(c: CargoComponent, r: Resource, specificVolume: int, amount: int) returns (back: Result<int>)
    requires c.Valid() && r in c.resources && specificVolume != 0 && amount > 0
    requires 0 <= c.Amount(r) && JavaMath.IsLong(c.Amount(r) + amount)
    requires 0 <= c.UsedVolume(r) <= c.MaxVolume(r) <= JavaMath.LONG_MAX
    requires c.UsedVolume(r) + Volume(amount, specificVolume) <= c.MaxVolume(r)
    modifies c
    ensures back == Ok(amount)
    ensures c.types == old(c.types) && c.munitions == old(c.munitions) && c.resources == old(c.resources)
  {
    var t, c0, volume := TypeOf(r), c.Hold(r), Volume(amount, specificVolume);
    StoreExactly(c0, r, volume, amount);
    var c1 := Store(c0, r, volume, amount).value;
    var added := c.AddCargo(r, specificVolume, amount);
    assert c.types == old(c.types)[t := c1];
    back := c.RetrieveCargo(r, specificVolume, amount);
  }

  /** A store that fits without overflow adds exactly, and the matching take undoes it. */
  lemma StoreExactly(c: Container, r: Resource, volume: int, amount: int)
    requires r in c.contents && 0 <= c.contents[r] && JavaMath.IsLong(c.contents[r] + amount) && amount > 0
    requires 0 <= c.usedVolume <= c.maxVolume <= JavaMath.LONG_MAX && JavaMath.IsLong(volume)
    requires c.usedVolume + volume <= c.maxVolume
    ensures Store(c, r, volume, amount).Some?
    ensures Store(c, r, volume, amount).value.contents[r] == c.contents[r] + amount
    ensures JavaMath.Min(c.contents[r] + amount, amount) == amount
    ensures Take(Store(c, r, volume, amount).value, r, volume, amount) == c
  {
    JavaMath.Wrap64Identity(c.usedVolume + volume);
    JavaMath.Wrap64Identity(c.contents[r] + amount);
    StoreThenTake(c, r, volume, amount);
  }
}
