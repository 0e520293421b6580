/**
 * Entity identity: `EntityUUID` (star system, empire and entity number, a
 * value with its own hash code and printed form), `EntityReference` (a
 * mutable pointer to an entity of a star system; references are compared
 * by identity, and a star system is named by its id), and the `UUID` and
 * `Name` components.
 */
module IDs {
  import opened Wrappers
  import JavaMath
  import Text

  datatype EntityUUID = EntityUUID(starSystemID: int, empireID: int, entityUID: int)
  {
    /** The field ranges of the Kotlin class: two `Int`s and a `Long`. */
    predicate Valid()
    {
      JavaMath.IsInt(starSystemID) && JavaMath.IsInt(empireID) && JavaMath.IsLong(entityUID)
    }

    /** `toString()`: "starSystemID:empireID:entityUID". */
    function ToString(): string
    {
      Text.IntToString(starSystemID) + ":" + Text.IntToString(empireID) + ":" + Text.IntToString(entityUID)
    }

    /** `hashCode()`: 1, then 37 times the hash plus each `Int` field, then plus the folded `Long`. */
    function Hash(): (h: int)
      requires Valid()
      ensures JavaMath.IsInt(h)
    {
      var h1 := JavaMath.Wrap32(37 * 1 + starSystemID);
      var h2 := JavaMath.Wrap32(37 * h1 + empireID);
      JavaMath.Wrap32(37 * h2 + JavaMath.Wrap32(JavaMath.LongXorShr32(entityUID)))
    }
  }

  /** A UUID whose fields are within the ranges of their Kotlin types. */
  type UUID = u: EntityUUID | u.Valid() witness EntityUUID(0, 0, 0)

  /** Reads the printed form back: three numbers separated by the first two colons. */
  function ReadUUID(s: string): (r: Option<EntityUUID>)
    ensures r.Some? ==> r.value.Valid()
  {
    var c0 := Text.IndexOf(s, ':', 0);
    var c1 := Text.IndexOfAfter(s, ':', c0);
    if c0 == -1 || c1 == -1 then None
    else
      var a, b, c := Text.ParseInt(s[..c0]), Text.ParseInt(s[c0 + 1..c1]), Text.ParseLong(s[c1 + 1..]);
      if a.Some? && b.Some? && c.Some? then Some(EntityUUID(a.value, b.value, c.value)) else None
  }

  lemma NoColon(x: int)
    ensures forall k :: 0 <= k < |Text.IntToString(x)| ==> Text.IntToString(x)[k] != ':'
  {
    Text.IntToStringChars(x);
  }

  /** In `a:b:c` with no colon in `a` or `b`, the first two colons close `a` and `b`. */
  lemma Joined(a: string, b: string, c: string)
    requires forall k :: 0 <= k < |a| ==> a[k] != ':'
    requires forall k :: 0 <= k < |b| ==> b[k] != ':'
    ensures var s := a + ":" + b + ":" + c;
      Text.IndexOf(s, ':', 0) == |a| && Text.IndexOfAfter(s, ':', |a|) == |a| + 1 + |b| &&
      s[..|a|] == a && s[|a| + 1..|a| + 1 + |b|] == b && s[|a| + 2 + |b|..] == c
  {
    var s := a + ":" + b + ":" + c;
    assert s == a + (":" + b + ":" + c);
    Text.IndexOfAfterPrefix(s, a, ":" + b + ":" + c, ':', 0);
    var p := a + ":" + b;
    assert s == p + (":" + c);
    assert forall k :: |a| + 1 <= k < |p| ==> p[k] == b[k - |a| - 1];
    Text.IndexOfAfterPrefix(s, p, ":" + c, ':', |a| + 1);
  }

  /** Reading `a:b:c` back parses each piece; the first two colons close `a` and `b`. */
  lemma ReadJoined(a: string, b: string, c: string)
    requires forall k :: 0 <= k < |a| ==> a[k] != ':'
    requires forall k :: 0 <= k < |b| ==> b[k] != ':'
    requires Text.ParseInt(a).Some? && Text.ParseInt(b).Some? && Text.ParseLong(c).Some?
    ensures ReadUUID(a + ":" + b + ":" + c) ==
      Some(EntityUUID(Text.ParseInt(a).value, Text.ParseInt(b).value, Text.ParseLong(c).value))
  {
    var s := a + ":" + b + ":" + c;
    var c0, c1 := |a|, |a| + 1 + |b|;
    Joined(a, b, c);
    assert s[..c0] == a && s[c0 + 1..c1] == b && s[c1 + 1..] == c;
  }

  /** Reading back the printed form gives the UUID, so distinct UUIDs print differently. */
  lemma ReadToString(u: EntityUUID)
    requires u.Valid()
    ensures ReadUUID(u.ToString()) == Some(u)
  {
    NoColon(u.starSystemID);
    NoColon(u.empireID);
    Text.ParseSignedToString(u.starSystemID, JavaMath.INT_MIN, JavaMath.INT_MAX);
    Text.ParseSignedToString(u.empireID, JavaMath.INT_MIN, JavaMath.INT_MAX);
    Text.ParseLongToString(u.entityUID);
    ReadJoined(Text.IntToString(u.starSystemID), Text.IntToString(u.empireID), Text.IntToString(u.entityUID));
  }

  lemma FoldSmall()
    ensures JavaMath.LongXorShr32(38) == 38 && JavaMath.LongXorShr32(1) == 1
  {
  }

  /**
   * Distinct UUIDs can share a hash code: the same entity number one apart in
   * empire and 37 apart in entity number, as (0, 0, 38) and (0, 1, 1), which
   * both hash to 37^3 + 38.
   */
  lemma HashCollisionAcrossEmpires()
    ensures EntityUUID(0, 0, 38).Valid() && EntityUUID(0, 1, 1).Valid()
    ensures EntityUUID(0, 0, 38) != EntityUUID(0, 1, 1)
    ensures EntityUUID(0, 0, 38).Hash() == EntityUUID(0, 1, 1).Hash() == 37 * 37 * 37 + 38
  {
    FoldSmall();
    JavaMath.Wrap32Identity(37);
    JavaMath.Wrap32Identity(37 * 37);
    JavaMath.Wrap32Identity(37 * 37 + 1);
    JavaMath.Wrap32Identity(37 * 37 * 37 + 38);
  }

  class EntityReference {
    /** The star system's id; `lateinit`. */
    var system: Option<int>
    var entityID: int
    /** `lateinit`. */
    var entityUUID: Option<UUID>

    constructor ()
      ensures system == None && entityID == -1 && entityUUID == None
    {
      system := None;
      entityID := -1;
      entityUUID := None;
    }

    /** `set(system, entityID, entityUUID)`: replaces all three fields and returns `this`. */
    method Set(system: int, entityID: int, entityUUID: UUID) returns (self: EntityReference)
      modifies this
      ensures self == this
      ensures this.system == Some(system) && this.entityID == entityID && this.entityUUID == Some(entityUUID)
    {
      this.system := Some(system);
      this.entityID := entityID;
      this.entityUUID := Some(entityUUID);
      self := this;
    }

    /** `hashCode()`: the UUID's hash code; an unset UUID throws. */
    function HashCode(): (r: Result<int>)
      reads this
      ensures r.Err? <==> entityUUID.None?
      ensures r.Ok? ==> r.value == entityUUID.value.Hash()
    {
      if entityUUID.None? then Err(UNINITIALIZED) else Ok(entityUUID.value.Hash())
    }
  }

  /** A reference set to a UUID hashes like the UUID, whatever it pointed to before. */
  method SetThenHash(ref: EntityReference, system: int, entityID: int, uuid: UUID) returns (h: Result<int>)
    modifies ref
    ensures h == Ok(uuid.Hash())
  {
    var self := ref.Set(system, entityID, uuid);
    h := self.HashCode();
  }

  class UUIDComponent {
    /** `lateinit`. */
    var uuid: Option<UUID>

    constructor ()
      ensures uuid == None
    {
      uuid := None;
    }

    method Set(uuid: UUID) returns (self: UUIDComponent)
      modifies this
      ensures self == this && this.uuid == Some(uuid)
    {
      this.uuid := Some(uuid);
      self := this;
    }

    /** `copy(target)`: the target gets this component's UUID; an unset UUID throws. */
    method Copy(target: UUIDComponent) returns (o: Outcome)
      modifies target
      ensures old(uuid).None? ==> o == Fail(UNINITIALIZED) && unchanged(target)
      ensures old(uuid).Some? ==> o == Pass && target.uuid == old(uuid)
    {
      if uuid.None? {
        return Fail(UNINITIALIZED);
      }
      var _ := target.Set(uuid.value);
      o := Pass;
    }
  }

  class NameComponent {
    /** `lateinit`. */
    var name: Option<string>

    constructor ()
      ensures name == None
    {
      name := None;
    }

    method Set(name: string) returns (self: NameComponent)
      modifies this
      ensures self == this && this.name == Some(name)
    {
      this.name := Some(name);
      self := this;
    }

    /** `copy(target)`: the target gets this component's name; an unset name throws. */
    method Copy(target: NameComponent) returns (o: Outcome)
      modifies target
      ensures old(name).None? ==> o == Fail(UNINITIALIZED) && unchanged(target)
      ensures old(name).Some? ==> o == Pass && target.name == old(name)
    {
      if name.None? {
        return Fail(UNINITIALIZED);
      }
      var _ := target.Set(name.value);
      o := Pass;
    }
  }
}
