/**
 * `PowerComponent`: a ship's power scheme, its four power totals (W) and
 * the references to the parts that supply, draw and store power; and
 * `PowerScheme`, which ranks the power-supplying part classes.
 */
module Power {
  import opened Wrappers
  import opened Parts

  datatype PowerScheme = SolarBatteryReactor | SolarReactorBattery
  {
    predicate ChargeBatteryFromReactor() { SolarReactorBattery? }

    /** The enum ordinal. */
    function Ordinal(): (o: int)
      ensures 0 <= o < 2
    {
      if SolarBatteryReactor? then 0 else 1
    }

    /** `powerTypeCompareMap`, in insertion order. */
    function CompareEntries(): seq<(PartKind, int)>
    {
      if SolarBatteryReactor? then [(SolarPanelPart, 1), (BatteryPart, 2), (ReactorPart, 3)]
      else [(SolarPanelPart, 1), (ReactorPart, 2), (BatteryPart, 3)]
    }
  }

  /**
   * The value of the first entry whose class matches `kind`; no matching entry
   * is an `InvalidParameterException`.
   */
  function Lookup(entries: seq<(PartKind, int)>, kind: PartKind): (r: Result<int>)
    ensures r.Ok? <==> exists i :: 0 <= i < |entries| && entries[i].0 == kind
    ensures r.Ok? ==> (exists i :: (0 <= i < |entries| && entries[i].0 == kind && r.value == entries[i].1 &&
      forall j :: 0 <= j < i ==> entries[j].0 != kind))
    ensures r.Err? ==> r.error == InvalidParameter
  {
    if entries == [] then Err(InvalidParameter)
    else if entries[0].0 == kind then Ok(entries[0].1)
    else
      var rest := Lookup(entries[1..], kind);
      assert forall i :: 1 <= i < |entries| ==> entries[i] == entries[1..][i - 1];
      rest
  }

  /** `getPowerTypeValue`: the scan over the entries, returning at the first match. */
  method GetPowerTypeValue(scheme: PowerScheme, part: Part) returns (r: Result<int>)
    ensures r == Lookup(scheme.CompareEntries(), part.kind)
  {
    var entries := scheme.CompareEntries();
    var i := 0;
    while i < |entries|
      invariant 0 <= i <= |entries|
      invariant Lookup(entries[i..], part.kind) == Lookup(entries, part.kind)
    {
      if entries[i].0 == part.kind {
        return Ok(entries[i].1);
      }
      assert entries[i..][1..] == entries[i + 1..];
      i := i + 1;
    }
    return Err(InvalidParameter);
  }

  /**
   * Solar panels always rank first; the scheme decides whether batteries or
   * reactors come second; parts that supply no power have no rank.
   */
  lemma {:induction false} PowerTypeRanks(scheme: PowerScheme)
    ensures Lookup(scheme.CompareEntries(), SolarPanelPart) == Ok(1)
    ensures Lookup(scheme.CompareEntries(), BatteryPart) == Ok(if scheme.ChargeBatteryFromReactor() then 3 else 2)
    ensures Lookup(scheme.CompareEntries(), ReactorPart) == Ok(if scheme.ChargeBatteryFromReactor() then 2 else 3)
    ensures Lookup(scheme.CompareEntries(), OtherPart) == Err(InvalidParameter)
  {
    var e := scheme.CompareEntries();
    var b, r := if scheme.ChargeBatteryFromReactor() then 3 else 2, if scheme.ChargeBatteryFromReactor() then 2 else 3;
    var tail := e[1..];
    assert Lookup(e, BatteryPart) == Lookup(tail, BatteryPart);
    assert Lookup(e, ReactorPart) == Lookup(tail, ReactorPart);
    assert Lookup(e, OtherPart) == Lookup(tail, OtherPart);
    if scheme.ChargeBatteryFromReactor() {
      assert tail == [(ReactorPart, 2), (BatteryPart, 3)];
      assert Lookup(tail, BatteryPart) == Lookup([(BatteryPart, 3)], BatteryPart);
      assert Lookup(tail, OtherPart) == Lookup([(BatteryPart, 3)], OtherPart) == Lookup([], OtherPart);
    } else {
      assert tail == [(BatteryPart, 2), (ReactorPart, 3)];
      assert Lookup(tail, ReactorPart) == Lookup([(ReactorPart, 3)], ReactorPart);
      assert Lookup(tail, OtherPart) == Lookup([(ReactorPart, 3)], OtherPart) == Lookup([], OtherPart);
    }
  }

  /** The list the target holds after `copy`: replaced only when the hash codes differ. */
  function Refreshed(source: seq<PartRef>, target: seq<PartRef>): seq<PartRef>
  {
    if ListHash(source) != ListHash(target) then source else target
  }

  /**
   * After `copy` a list has the source's hash code, and it is the source's
   * list unless the target already held a different list with the same hash.
   */
  lemma RefreshedMatches(source: seq<PartRef>, target: seq<PartRef>)
    ensures ListHash(Refreshed(source, target)) == ListHash(source)
    ensures Refreshed(source, target) == source || (target != source && ListHash(target) == ListHash(source))
  {
  }

  /**
   * A target list that differs from the source but has the same hash code is
   * kept by `copy`: `[PartRef(q, 31)]` against `[PartRef(p, 0)]` when `p`'s
   * identity hash is one more than `q`'s.
   */
  lemma CopyKeepsCollidingList(p: Part, q: Part)
    requires p.identityHash == q.identityHash + 1
    ensures Refreshed([PartRef(p, 0)], [PartRef(q, 31)]) == [PartRef(q, 31)] != [PartRef(p, 0)]
  {
    assert 31 * p.identityHash + 0 == 31 * q.identityHash + 31;
    assert RefHash(PartRef(p, 0)) == RefHash(PartRef(q, 31));
    assert [PartRef(p, 0)][..0] == [] == [PartRef(q, 31)][..0];
  }

  class PowerComponent {
    /** `lateinit`: `None` until `set` is called. */
    var powerScheme: Option<PowerScheme>
    var stateChanged: bool
    var totalAvailablePower: int
    var totalAvailableSolarPower: int
    var totalRequestedPower: int
    var totalUsedPower: int
    var poweringParts: seq<PartRef>
    var poweredParts: seq<PartRef>
    var chargedParts: seq<PartRef>

    constructor ()
      ensures powerScheme == None && stateChanged
      ensures totalAvailablePower == 0 && totalAvailableSolarPower == 0
      ensures totalRequestedPower == 0 && totalUsedPower == 0
      ensures poweringParts == [] && poweredParts == [] && chargedParts == []
    {
      powerScheme := None;
      stateChanged := true;
      totalAvailablePower := 0;
      totalAvailableSolarPower := 0;
      totalRequestedPower := 0;
      totalUsedPower := 0;
      poweringParts := [];
      poweredParts := [];
      chargedParts := [];
    }

    /** `set(powerScheme)`: stores the scheme and flags the state as changed. */
    method Set(scheme: PowerScheme)
      modifies this
      ensures powerScheme == Some(scheme) && stateChanged
      ensures totalAvailablePower == old(totalAvailablePower) && totalAvailableSolarPower == old(totalAvailableSolarPower)
      ensures totalRequestedPower == old(totalRequestedPower) && totalUsedPower == old(totalUsedPower)
      ensures poweringParts == old(poweringParts) && poweredParts == old(poweredParts)
      ensures chargedParts == old(chargedParts)
    {
      powerScheme := Some(scheme);
      stateChanged := true;
    }

    /** `reset()`: zeroes the totals and empties the part lists; scheme and flag stay. */
    method Reset()
      modifies this
      ensures totalAvailablePower == 0 && totalAvailableSolarPower == 0
      ensures totalRequestedPower == 0 && totalUsedPower == 0
      ensures poweringParts == [] && poweredParts == [] && chargedParts == []
      ensures powerScheme == old(powerScheme) && stateChanged == old(stateChanged)
    {
      totalAvailablePower := 0;
      totalAvailableSolarPower := 0;
      totalRequestedPower := 0;
      totalUsedPower := 0;
      poweringParts := [];
      poweredParts := [];
      chargedParts := [];
    }

    /** The six scalar fields of `this` and `tc` agree. */
    predicate ScalarsAgree(tc: PowerComponent)
      reads this, tc
    {
      tc.powerScheme == powerScheme && tc.stateChanged == stateChanged &&
      tc.totalAvailablePower == totalAvailablePower &&
      tc.totalAvailableSolarPower == totalAvailableSolarPower &&
      tc.totalRequestedPower == totalRequestedPower &&
      tc.totalUsedPower == totalUsedPower
    }

    /**
     * `simpleEquals(tc)`: the scalar fields agree. Reading either unset scheme
     * throws, the target's first.
     */
    function SimpleEquals(tc: PowerComponent): (r: Result<bool>)
      reads this, tc
      ensures r.Err? <==> tc.powerScheme.None? || powerScheme.None?
      ensures r.Ok? ==> (r.value <==> ScalarsAgree(tc))
    {
      if tc.powerScheme.None? || powerScheme.None? then Err(UNINITIALIZED)
      else Ok(ScalarsAgree(tc))
    }

    /** `simpleCopy(tc)`: the scalar fields of `tc` become those of `this`; afterwards they compare equal. */
    method SimpleCopy(tc: PowerComponent) returns (o: Outcome)
      modifies tc
      ensures powerScheme == old(powerScheme)
      ensures old(powerScheme).None? ==> o == Fail(UNINITIALIZED) && unchanged(tc)
      ensures old(powerScheme).Some? ==> o == Pass && ScalarsAgree(tc) && SimpleEquals(tc) == Ok(true)
      ensures old(powerScheme).Some? ==> (tc.stateChanged == old(stateChanged) &&
        tc.totalAvailablePower == old(totalAvailablePower) &&
        tc.totalAvailableSolarPower == old(totalAvailableSolarPower) &&
        tc.totalRequestedPower == old(totalRequestedPower) &&
        tc.totalUsedPower == old(totalUsedPower))
      ensures old(powerScheme).Some? ==> (tc.poweringParts == old(tc.poweringParts) &&
        tc.poweredParts == old(tc.poweredParts) && tc.chargedParts == old(tc.chargedParts))
    {
      if powerScheme.None? {
        return Fail(UNINITIALIZED);
      }
      var scheme, changed := powerScheme, stateChanged;
      var available, solar, requested, used := totalAvailablePower, totalAvailableSolarPower, totalRequestedPower, totalUsedPower;
      tc.powerScheme := scheme;
      tc.stateChanged := changed;
      tc.totalAvailablePower := available;
      tc.totalAvailableSolarPower := solar;
      tc.totalRequestedPower := requested;
      tc.totalUsedPower := used;
      o := Pass;
    }

    /**
     * `copy(tc)`: the scalars as in `simpleCopy`, and each part list of `tc`
     * replaced by this component's when their hash codes differ.
     */
    method Copy(tc: PowerComponent) returns (o: Outcome)
      modifies tc
      ensures old(powerScheme).None? ==> o == Fail(UNINITIALIZED) && unchanged(tc)
      ensures old(powerScheme).Some? ==> (o == Pass && tc.powerScheme == old(powerScheme) &&
        tc.stateChanged == old(stateChanged) &&
        tc.totalAvailablePower == old(totalAvailablePower) &&
        tc.totalAvailableSolarPower == old(totalAvailableSolarPower) &&
        tc.totalRequestedPower == old(totalRequestedPower) &&
        tc.totalUsedPower == old(totalUsedPower))
      ensures old(powerScheme).Some? ==>
        tc.poweringParts == Refreshed(old(poweringParts), old(tc.poweringParts)) &&
        tc.poweredParts == Refreshed(old(poweredParts), old(tc.poweredParts)) &&
        tc.chargedParts == Refreshed(old(chargedParts), old(tc.chargedParts))
    {
      o := SimpleCopy(tc);
      if o.Fail? {
        return;
      }
      var powering, powered, charged := poweringParts, poweredParts, chargedParts;
      if ListHash(powering) != ListHash(tc.poweringParts) {
        tc.poweringParts := powering;
      }
      if ListHash(powered) != ListHash(tc.poweredParts) {
        tc.poweredParts := powered;
      }
      if ListHash(charged) != ListHash(tc.chargedParts) {
        tc.chargedParts := charged;
      }
    }

    /** The corrected `copy`: every part list of `tc` becomes this component's. */
    method CopyExact(tc: PowerComponent) returns (o: Outcome)
      modifies tc
      ensures old(powerScheme).None? ==> o == Fail(UNINITIALIZED) && unchanged(tc)
      ensures old(powerScheme).Some? ==> (o == Pass && tc.powerScheme == old(powerScheme) &&
        tc.stateChanged == old(stateChanged) &&
        tc.totalAvailablePower == old(totalAvailablePower) &&
        tc.totalAvailableSolarPower == old(totalAvailableSolarPower) &&
        tc.totalRequestedPower == old(totalRequestedPower) &&
        tc.totalUsedPower == old(totalUsedPower))
      ensures old(powerScheme).Some? ==> (tc.poweringParts == old(poweringParts) &&
        tc.poweredParts == old(poweredParts) && tc.chargedParts == old(chargedParts))
    {
      o := SimpleCopy(tc);
      if o.Fail? {
        return;
      }
      var powering, powered, charged := poweringParts, poweredParts, chargedParts;
      tc.poweringParts := powering;
      tc.poweredParts := powered;
      tc.chargedParts := charged;
    }
  }
}
