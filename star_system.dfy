/**
 * A star system's own bookkeeping: the entity-number generator, the
 * per-empire registry of ships bucketed by empty mass, the validity check of
 * entity references, and one tick of `update` (shadow reset, command drain
 * and the split of the tick into world-processing sub-steps).
 *
 * The entity world is reduced to what these operations observe: the set of
 * active entity ids, the UUID component of each entity, and the delta of
 * every `world.process()` call, which is recorded in order.
 */
module StarSystems {
  import opened Wrappers
  import JavaMath
  import IDs

  // ---------------------------------------------------------------------------
  // Sub-steps of one tick

  /** `n` copies of `x`. */
  function Repeat(x: int, n: nat): (r: seq<int>)
    ensures |r| == n && forall i :: 0 <= i < n ==> r[i] == x
  {
    if n == 0 then [] else Repeat(x, n - 1) + [x]
  }

  function Sum(s: seq<int>): int
  {
    if s == [] then 0 else Sum(s[..|s| - 1]) + s[|s| - 1]
  }

  /** The coarse step of a long, calm tick: one more than a hundredth of it. */
  function CoarseDelta(d: int): int
  {
    1 + d / 100
  }

  /**
   * The deltas `update(d)` hands to the world, in order: single steps for a
   * short tick or during combat, otherwise `d / delta` coarse steps followed by
   * single steps for the rest.
   */
  function Plan(d: int, combat: bool): seq<int>
  {
    if d <= 100 || combat then Repeat(1, JavaMath.Max(d, 0))
    else
      var delta := CoarseDelta(d);
      Repeat(delta, d / delta) + Repeat(1, d - delta * (d / delta))
  }

  lemma {:induction false} SumRepeat(x: int, n: nat)
    ensures Sum(Repeat(x, n)) == x * n
  {
    if n > 0 {
      SumRepeat(x, n - 1);
      assert Repeat(x, n)[..n - 1] == Repeat(x, n - 1);
    }
  }

  lemma {:induction false} SumConcat(a: seq<int>, b: seq<int>)
    ensures Sum(a + b) == Sum(a) + Sum(b)
  {
    if b != [] {
      SumConcat(a, b[..|b| - 1]);
      assert (a + b)[..|a + b| - 1] == a + b[..|b| - 1];
    } else {
      assert a + b == a;
    }
  }

  /** The steps of a long, calm tick add up to the tick. */
  lemma CoarseTotal(d: int)
    requires d > 100
    ensures Sum(Plan(d, false)) == d
  {
    var delta := CoarseDelta(d);
    var k := d / delta;
    SumConcat(Repeat(delta, k), Repeat(1, d - delta * k));
    SumRepeat(delta, k);
    SumRepeat(1, d - delta * k);
  }

  /** The steps of a tick add up to the tick (nothing for a non-positive one), and every step is at least 1. */
  lemma PlanTotal(d: int, combat: bool)
    ensures Sum(Plan(d, combat)) == JavaMath.Max(d, 0)
    ensures forall i :: 0 <= i < |Plan(d, combat)| ==> Plan(d, combat)[i] >= 1
  {
    if d <= 100 || combat {
      SumRepeat(1, JavaMath.Max(d, 0));
    } else {
      CoarseTotal(d);
    }
  }

  /** A long, calm tick takes fewer than 100 coarse steps and fewer single steps than the coarse delta. */
  lemma PlanBounded(d: int)
    requires d > 100
    ensures var delta := CoarseDelta(d);
      d / delta < 100 && 0 <= d - delta * (d / delta) < delta &&
      |Plan(d, false)| < 100 + delta
  {
    var delta := CoarseDelta(d);
    JavaMath.EuclidFacts(d, delta);
    JavaMath.EuclidFacts(d, 100);
    assert d < 100 * delta;
    if d / delta >= 100 {
      JavaMath.MulMonotone(delta, 100, d / delta);
    }
  }

  // ---------------------------------------------------------------------------
  // Ship registry

  /** An empire's mass buckets, empty when it has none. */
  function ShipsOf(E: map<int, map<int, seq<int>>>, empire: int): map<int, seq<int>>
  {
    if empire in E then E[empire] else map[]
  }

  /** The ships of one empire and empty mass, empty when there is no bucket. */
  function Bucket(E: map<int, map<int, seq<int>>>, empire: int, mass: int): seq<int>
  {
    if empire in E && mass in E[empire] then E[empire][mass] else []
  }

  /** `IntBag.removeValue`: the first occurrence of `x` removed, the rest kept in order. */
  function RemoveFirst(b: seq<int>, x: int): (r: seq<int>)
    ensures x in b ==> |r| == |b| - 1
    ensures x !in b ==> r == b
  {
    if b == [] then []
    else if b[0] == x then b[1..]
    else [b[0]] + RemoveFirst(b[1..], x)
  }

  lemma {:induction false} RemoveFirstCount(b: seq<int>, x: int)
    ensures x in b ==> multiset(RemoveFirst(b, x)) == multiset(b) - multiset{x}
  {
    if b != [] && b[0] != x {
      RemoveFirstCount(b[1..], x);
      assert b == [b[0]] + b[1..];
    } else if b != [] {
      assert b == [b[0]] + b[1..];
    }
  }

  /** The registry after `registerShip`: the ship appended to its empire's bucket for its mass, created as needed. */
  function Registered(E: map<int, map<int, seq<int>>>, empire: int, mass: int, id: int): map<int, map<int, seq<int>>>
  {
    E[empire := ShipsOf(E, empire)[mass := Bucket(E, empire, mass) + [id]]]
  }

  /** The registry after a successful `unregisterShip`: the ship's first entry removed from its bucket. */
  function Unregistered(E: map<int, map<int, seq<int>>>, empire: int, mass: int, id: int): map<int, map<int, seq<int>>>
  {
    if empire in E && mass in E[empire] then E[empire := E[empire][mass := RemoveFirst(E[empire][mass], id)]] else E
  }

  /** Registering a ship and unregistering it leaves its bucket holding the same ships. */
  lemma RegisterUnregister(E: map<int, map<int, seq<int>>>, empire: int, mass: int, id: int)
    ensures multiset(Bucket(Unregistered(Registered(E, empire, mass, id), empire, mass, id), empire, mass)) ==
      multiset(Bucket(E, empire, mass))
  {
    var b := Bucket(E, empire, mass) + [id];
    var R := Registered(E, empire, mass, id);
    assert Bucket(R, empire, mass) == b;
    assert Bucket(Unregistered(R, empire, mass, id), empire, mass) == RemoveFirst(b, id);
    assert b[|b| - 1] == id;
    RemoveFirstCount(b, id);
    assert multiset(b) - multiset{id} == multiset(Bucket(E, empire, mass));
  }

  /** Registering and unregistering touch no other bucket. */
  lemma RegisterUnregisterElsewhere(E: map<int, map<int, seq<int>>>, empire: int, mass: int, id: int, e: int, m: int)
    requires e != empire || m != mass
    ensures Bucket(Registered(E, empire, mass, id), e, m) == Bucket(E, e, m)
    ensures Bucket(Unregistered(E, empire, mass, id), e, m) == Bucket(E, e, m)
  {
  }

  /** What `unregisterShip` found; all but `Removed` are logged as errors and change nothing. */
  datatype Unregistration = Removed | NoEmpireShips | NoShipsOfMass | NotRegistered

  /** A command queued for the system; whether its `apply` throws is part of the command. */
  datatype Command = Command(id: int, throws: bool)

  /** The commands of `q` whose `apply` throws, in order. */
  function Failing(q: seq<Command>): (r: seq<Command>)
    ensures |r| <= |q|
    ensures forall c :: c in r ==> c in q && c.throws
  {
    if q == [] then [] else Failing(q[..|q| - 1]) + (if q[|q| - 1].throws then [q[|q| - 1]] else [])
  }

  class StarSystem {
    const sid: int
    var entityUIDGenerator: int
    var skipClearShadowChanged: bool

    /** The working shadow's per-tick change sets. */
    var added: set<int>
    var deleted: set<int>
    var changed: set<int>
    var quadtreeShipsChanged: bool
    var quadtreePlanetoidsChanged: bool

    var commandQueue: seq<Command>
    /** Every command applied so far, in order, and those whose `apply` threw. */
    var applied: seq<Command>
    var failures: seq<Command>

    /** The delta of every `world.process()` call so far, and the world's current delta. */
    var processed: seq<int>
    var worldDelta: int

    /** Ships per empire id, bucketed by empty mass. */
    var empireShips: map<int, map<int, seq<int>>>

    /** The entity world as seen here: the active ids and each entity's UUID. */
    var active: set<int>
    var uuids: map<int, IDs.UUID>

    constructor (sid: int)
      ensures this.sid == sid && entityUIDGenerator == 1 && !skipClearShadowChanged
      ensures commandQueue == [] && applied == [] && failures == [] && processed == []
      ensures empireShips == map[] && active == {} && uuids == map[]
      ensures added == {} && deleted == {} && changed == {}
    {
      this.sid := sid;
      entityUIDGenerator := 1;
      skipClearShadowChanged := false;
      added, deleted, changed := {}, {}, {};
      quadtreeShipsChanged, quadtreePlanetoidsChanged := false, false;
      commandQueue, applied, failures := [], [], [];
      processed := [];
      worldDelta := 1;
      empireShips := map[];
      active := {};
      uuids := map[];
    }

    /** `getNewEntityID()`: the current number, then the generator moves on by one as a `Long`. */
    method GetNewEntityID() returns (id: int)
      modifies this
      ensures id == old(entityUIDGenerator)
      ensures entityUIDGenerator == JavaMath.Wrap64(old(entityUIDGenerator) + 1)
      ensures JavaMath.IsLong(old(entityUIDGenerator)) && old(entityUIDGenerator) < JavaMath.LONG_MAX ==>
        entityUIDGenerator == id + 1
    {
      id := entityUIDGenerator;
      if JavaMath.IsLong(id) && id < JavaMath.LONG_MAX {
        JavaMath.Wrap64Identity(id + 1);
      }
      entityUIDGenerator := JavaMath.Wrap64(entityUIDGenerator + 1);
    }

    /** `registerShip(entityID, empire, emptyMass)`. */
    method RegisterShip(id: int, empire: int, mass: int)
      modifies this
      ensures empireShips == Registered(old(empireShips), empire, mass, id)
      ensures Bucket(empireShips, empire, mass) == Bucket(old(empireShips), empire, mass) + [id]
    {
      var ships := ShipsOf(empireShips, empire);
      var bucket := if mass in ships then ships[mass] else [];
      empireShips := empireShips[empire := ships[mass := bucket + [id]]];
    }

    /** `unregisterShip(entityID, ship)`: removes the ship's first entry from its bucket, else reports what was missing. */
    method UnregisterShip(id: int, empire: int, mass: int) returns (r: Unregistration)
      modifies this
      ensures r == NoEmpireShips <==> empire !in old(empireShips)
      ensures r == NoShipsOfMass <==> empire in old(empireShips) && mass !in old(empireShips)[empire]
      ensures r == NotRegistered <==> id !in old(Bucket(empireShips, empire, mass)) && empire in old(empireShips) && mass in old(empireShips)[empire]
      ensures empireShips == Unregistered(old(empireShips), empire, mass, id)
    {
      if empire !in empireShips {
        return NoEmpireShips;
      }
      var ships := empireShips[empire];
      if mass !in ships {
        return NoShipsOfMass;
      }
      var bucket := ships[mass];
      empireShips := empireShips[empire := ships[mass := RemoveFirst(bucket, id)]];
      r := if id in bucket then Removed else NotRegistered;
    }

    /**
     * `isEntityReferenceValid(entityReference)`: false for another system or an
     * inactive entity, else whether the UUID hash codes agree. Reading an unset
     * system or UUID throws, and so does an entity without a UUID component.
     */
    function IsEntityReferenceValid(ref: IDs.EntityReference): (r: Result<bool>)
      reads this, ref
      ensures r == Ok(true) <==>
        (ref.system == Some(sid) && ref.entityID in active && ref.entityID in uuids &&
         ref.entityUUID.Some? && ref.entityUUID.value.Hash() == uuids[ref.entityID].Hash())
    {
      if ref.system.None? then Err(UNINITIALIZED)
      else if ref.system.value != sid || ref.entityID !in active then Ok(false)
      else if ref.entityID !in uuids then Err(NullPointer)
      else if ref.entityUUID.None? then Err(UNINITIALIZED)
      else
        Ok(ref.entityUUID.value.Hash() == uuids[ref.entityID].Hash())
    }

    /** The validity check comparing the UUIDs themselves rather than their hash codes. */
    function IsEntityReferenceValidExact(ref: IDs.EntityReference): (r: Result<bool>)
      reads this, ref
      ensures r == Ok(true) <==>
        (ref.system == Some(sid) && ref.entityID in active && ref.entityID in uuids &&
         ref.entityUUID == Some(uuids[ref.entityID]))
      ensures r.Err? <==> (ref.system.None? ||
        (ref.system.value == sid && ref.entityID in active && (ref.entityID !in uuids || ref.entityUUID.None?)))
    {
      if ref.system.None? then Err(UNINITIALIZED)
      else if ref.system.value != sid || ref.entityID !in active then Ok(false)
      else if ref.entityID !in uuids then Err(NullPointer)
      else if ref.entityUUID.None? then Err(UNINITIALIZED)
      else Ok(ref.entityUUID.value == uuids[ref.entityID])
    }

    /** The hash-code check accepts every reference the exact check accepts, and fails exactly where it fails. */
    lemma ExactImpliesValid(ref: IDs.EntityReference)
      ensures IsEntityReferenceValidExact(ref) == Ok(true) ==> IsEntityReferenceValid(ref) == Ok(true)
      ensures IsEntityReferenceValidExact(ref).Err? <==> IsEntityReferenceValid(ref).Err?
    {
    }

    /** Runs `n` world steps of the given delta, then leaves the world's delta at `delta`. */
    method Process(delta: int, n: int)
      modifies this`processed, this`worldDelta
      ensures processed == old(processed) + Repeat(delta, JavaMath.Max(n, 0))
      ensures worldDelta == delta
    {
      worldDelta := delta;
      var i := 0;
      while i < n
        invariant i >= 0 && JavaMath.Max(i, 0) <= JavaMath.Max(n, 0)
        invariant processed == old(processed) + Repeat(delta, i)
        invariant worldDelta == delta
      {
        processed := processed + [delta];
        i := i + 1;
      }
    }

    /** The command drain: polls until the queue is empty, applying each command; a throwing command is logged and skipped. */
    method DrainCommands()
      modifies this`commandQueue, this`applied, this`failures
      ensures commandQueue == []
      ensures applied == old(applied) + old(commandQueue)
      ensures failures == old(failures) + Failing(old(commandQueue))
    {
      ghost var q := commandQueue;
      ghost var i := 0;
      while commandQueue != []
        invariant 0 <= i <= |q| && commandQueue == q[i..]
        invariant applied == old(applied) + q[..i]
        invariant failures == old(failures) + Failing(q[..i])
        decreases |commandQueue|
      {
        var command := commandQueue[0];
        assert q[..i + 1] == q[..i] + [command];
        assert q[..i + 1][..i] == q[..i];
        commandQueue := commandQueue[1..];
        applied := applied + [command];
        if command.throws {
          failures := failures + [command];
        }
        i := i + 1;
      }
      assert q[..i] == q;
    }

    /** The shadow reset at the start of a tick: the change sets are cleared, the changed set only when no skip was requested. */
    method ClearShadow()
      modifies this`added, this`deleted, this`changed, this`skipClearShadowChanged,
        this`quadtreeShipsChanged, this`quadtreePlanetoidsChanged
      ensures added == {} && deleted == {} && !quadtreeShipsChanged && !quadtreePlanetoidsChanged
      ensures !skipClearShadowChanged
      ensures changed == if old(skipClearShadowChanged) then old(changed) else {}
    {
      added := {};
      deleted := {};
      if skipClearShadowChanged {
        skipClearShadowChanged := false;
      } else {
        changed := {};
      }
      quadtreeShipsChanged := false;
      quadtreePlanetoidsChanged := false;
    }

    /** The processing phase of a tick: the world runs the planned sub-steps and its delta is left at 1. */
    method ProcessTick(d: int, combat: bool)
      modifies this`processed, this`worldDelta
      ensures processed == old(processed) + Plan(d, combat)
      ensures worldDelta == 1
    {
      if d <= 100 || combat {
        Process(1, d);
      } else {
        var delta := CoarseDelta(d);
        JavaMath.EuclidFacts(d, delta);
        Process(delta, d / delta);
        Process(1, d - delta * (d / delta));
        assert processed == old(processed) + (Repeat(delta, d / delta) + Repeat(1, d - delta * (d / delta)));
      }
    }

    /**
     * `update(deltaGameTime)` without profiling or the shadow copy: the shadow
     * reset, the command drain, then the processing phase; `combatants` is the
     * number of entities in combat.
     */
    method Update(d: int, combatants: int)
      modifies this
      ensures added == {} && deleted == {} && !quadtreeShipsChanged && !quadtreePlanetoidsChanged
      ensures !skipClearShadowChanged
      ensures changed == if old(skipClearShadowChanged) then old(changed) else {}
      ensures commandQueue == [] && applied == old(applied) + old(commandQueue)
      ensures failures == old(failures) + Failing(old(commandQueue))
      ensures processed == old(processed) + Plan(d, combatants > 0)
      ensures worldDelta == 1
      ensures empireShips == old(empireShips) && entityUIDGenerator == old(entityUIDGenerator)
      ensures active == old(active) && uuids == old(uuids)
    {
      ClearShadow();
      DrainCommands();
      ProcessTick(d, combatants > 0);
    }
  }

  /**
   * The stale reference the hash-code check lets through: entity 5 of system 0
   * now holds UUID (0, 1, 1), and a reference made when it held (0, 0, 38) is
   * still accepted, since both UUIDs hash to 50691. The exact check rejects it.
   */
  method StaleReferenceAccepted() returns (s: StarSystem, ref: IDs.EntityReference)
    ensures 5 in s.uuids && s.uuids[5] == IDs.EntityUUID(0, 1, 1)
    ensures ref.entityUUID.Some? && ref.entityUUID.value == IDs.EntityUUID(0, 0, 38)
    ensures s.IsEntityReferenceValid(ref) == Ok(true)
    ensures s.IsEntityReferenceValidExact(ref) == Ok(false)
  {
    s := new StarSystem(0);
    s.active := {5};
    s.uuids := map[5 := IDs.EntityUUID(0, 1, 1)];
    ref := new IDs.EntityReference();
    var _ := ref.Set(0, 5, IDs.EntityUUID(0, 0, 38));
    IDs.HashCollisionAcrossEmpires();
  }
}
