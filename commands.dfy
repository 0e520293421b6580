/**
 * Player commands check, before they are applied, that the entities they
 * refer to still exist. The galaxy resolves a reference to the entity's
 * current reference or to nothing; that answer is given here as a map, `resolved`,
 * holding the references that resolve and their current replacements.
 * A command's references must have their (`lateinit`) star system set, or
 * reading it throws.
 */
module Commands {
  import opened Wrappers
  import IDs

  type Ref = IDs.EntityReference

  /** The current references of those in `refs` that resolve, in order. */
  function Survivors(refs: seq<Ref>, resolved: map<Ref, Ref>): (r: seq<Ref>)
    ensures |r| <= |refs|
    ensures forall x :: x in r ==> x in resolved.Values
  {
    if refs == [] then []
    else (if refs[0] in resolved then [resolved[refs[0]]] else []) + Survivors(refs[1..], resolved)
  }

  lemma {:induction false} SurvivorsConcat(a: seq<Ref>, b: seq<Ref>, resolved: map<Ref, Ref>)
    ensures Survivors(a + b, resolved) == Survivors(a, resolved) + Survivors(b, resolved)
  {
    if a == [] {
      assert a + b == b;
    } else {
      assert (a + b)[1..] == a[1..] + b;
      SurvivorsConcat(a[1..], b, resolved);
    }
  }

  /** Nothing survives exactly when no reference resolves. */
  lemma {:induction false} SurvivorsEmpty(refs: seq<Ref>, resolved: map<Ref, Ref>)
    ensures Survivors(refs, resolved) == [] <==> forall k :: 0 <= k < |refs| ==> refs[k] !in resolved
  {
    if refs != [] {
      SurvivorsEmpty(refs[1..], resolved);
      if refs[0] !in resolved {
        forall k | 1 <= k < |refs| ensures refs[k] == refs[1..][k - 1] { }
      }
    }
  }

  /** `Bag.remove(i)`: the last entry moves into slot `i` and the bag shrinks by one. */
  function RemoveAt(b: seq<Ref>, i: int): (r: seq<Ref>)
    requires 0 <= i < |b|
    ensures |r| == |b| - 1
    ensures r[..i] == b[..i]
    ensures i < |b| - 1 ==> r[i..] == [b[|b| - 1]] + b[i + 1..|b| - 1]
  {
    b[i := b[|b| - 1]][..|b| - 1]
  }

  /** A command acting on one entity. */
  class EntityCommand {
    var entityRef: Ref

    constructor (entityRef: Ref)
      ensures this.entityRef == entityRef
    {
      this.entityRef := entityRef;
    }

    /**
     * `isValid()`: true exactly when the reference resolves, and the
     * reference is then replaced by its current one; a reference without a
     * star system throws.
     */
    method IsValid(resolved: map<Ref, Ref>) returns (valid: Result<bool>)
      modifies this
      ensures old(entityRef.system).None? ==> valid == Err(UNINITIALIZED)
      ensures old(entityRef.system).Some? ==> valid == Ok(old(entityRef) in resolved)
      ensures valid == Ok(true) ==> entityRef == resolved[old(entityRef)]
      ensures valid != Ok(true) ==> entityRef == old(entityRef)
    {
      if entityRef.system.None? {
        return Err(UNINITIALIZED);
      }
      if entityRef in resolved {
        entityRef := resolved[entityRef];
        return Ok(true);
      }
      return Ok(false);
    }

    /** `getSystem()`: the star system of the entity. */
    function GetSystem(): (r: Result<int>)
      reads this, entityRef
      ensures r.Ok? <==> entityRef.system.Some?
      ensures r.Ok? ==> r.value == entityRef.system.value
      ensures r.Err? ==> r.error == UNINITIALIZED
    {
      if entityRef.system.None? then Err(UNINITIALIZED) else Ok(entityRef.system.value)
    }
  }

  /** A command acting on several entities. */
  class EntitiesCommand {
    var entitiesRef: seq<Ref>

    constructor (entitiesRef: seq<Ref>)
      ensures this.entitiesRef == entitiesRef
    {
      this.entitiesRef := entitiesRef;
    }

    /**
     * `isValid()`: every reference that resolves is replaced by its current
     * one and every other is removed (the bag's swap-removal reorders what is
     * left); true exactly when some reference remains. A reference without a
     * star system throws.
     */
    method IsValid(resolved: map<Ref, Ref>) returns (valid: Result<bool>)
      modifies this
      ensures valid.Err? <==> exists k :: 0 <= k < |old(entitiesRef)| && old(entitiesRef)[k].system.None?
      ensures valid.Err? ==> valid.error == UNINITIALIZED
      ensures valid.Ok? ==> multiset(entitiesRef) == multiset(Survivors(old(entitiesRef), resolved))
      ensures valid.Ok? ==> (valid.value <==> exists k :: 0 <= k < |old(entitiesRef)| && old(entitiesRef)[k] in resolved)
      ensures valid.Ok? ==> (valid.value <==> |entitiesRef| > 0)
    {
      var filtered := Filter(entitiesRef, resolved);
      if filtered.Err? {
        return Err(filtered.error);
      }
      SurvivorsEmpty(entitiesRef, resolved);
      entitiesRef := filtered.value;
      valid := Ok(|entitiesRef| > 0);
    }

    /** `getSystem()`: the star system of the first remaining entity; an empty bag yields `null`, which throws. */
    function GetSystem(): (r: Result<int>)
      reads this, if |entitiesRef| > 0 then {entitiesRef[0]} else {}
      ensures |entitiesRef| == 0 ==> r == Err(NullPointer)
      ensures |entitiesRef| > 0 ==> (r.Ok? <==> entitiesRef[0].system.Some?)
      ensures r.Ok? ==> |entitiesRef| > 0 && r.value == entitiesRef[0].system.value
    {
      if |entitiesRef| == 0 then Err(NullPointer)
      else if entitiesRef[0].system.None? then Err(UNINITIALIZED)
      else Ok(entitiesRef[0].system.value)
    }
  }

  /**
   * The target half of `isValid()` for commands against a target entity,
   * given the command's own star system `system` (read once the entity half
   * has passed): the target must resolve, and its current reference must lie
   * in the same star system. Reading an unset star system throws.
   */
  function TargetCheck(system: Result<int>, t: Ref, resolved: map<Ref, Ref>): (r: Result<bool>)
    reads t, if t in resolved then {resolved[t]} else {}
    ensures r == Ok(true) <==> t.system.Some? && t in resolved && system.Ok? && resolved[t].system == Some(system.value)
    ensures r.Err? <==> t.system.None? || (t in resolved && (system.Err? || resolved[t].system.None?))
    ensures r.Err? && t.system.Some? && t in resolved && system.Err? ==> r.error == system.error
  {
    if t.system.None? then Err(UNINITIALIZED)
    else if t !in resolved then Ok(false)
    else if system.Err? then Err(system.error)
    else if resolved[t].system.None? then Err(UNINITIALIZED)
    else Ok(system.value == resolved[t].system.value)
  }

  /** A command by one entity against a target entity (the entity half is `command`). */
  class EntityTargetEntityCommand {
    const command: EntityCommand
    var targetRef: Ref

    constructor (entityRef: Ref, targetRef: Ref)
      ensures fresh(command) && command.entityRef == entityRef && this.targetRef == targetRef
    {
      command := new EntityCommand(entityRef);
      this.targetRef := targetRef;
    }

    /**
     * `isValid()`: the entity must resolve first; then the target must
     * resolve into the entity's star system, and is then replaced by its
     * current reference.
     */
    method IsValid(resolved: map<Ref, Ref>) returns (valid: Result<bool>)
      modifies this, command
      ensures old(command.entityRef.system).None? ==> valid == Err(UNINITIALIZED)
      ensures old(command.entityRef.system).Some? && old(command.entityRef) !in resolved ==> valid == Ok(false)
      ensures old(command.entityRef.system).Some? && old(command.entityRef) in resolved ==>
        command.entityRef == resolved[old(command.entityRef)] &&
        valid == TargetCheck(command.GetSystem(), old(targetRef), resolved)
      ensures valid == Ok(true) ==> targetRef == resolved[old(targetRef)] && targetRef.system == command.entityRef.system
      ensures valid != Ok(true) ==> targetRef == old(targetRef)
    {
      valid := command.IsValid(resolved);
      if valid != Ok(true) {
        return;
      }
      valid := TargetCheck(command.GetSystem(), targetRef, resolved);
      if valid == Ok(true) {
        targetRef := resolved[targetRef];
      }
    }
  }

  /** A command by several entities against a target entity (the entities half is `command`). */
  class EntitiesTargetEntityCommand {
    const command: EntitiesCommand
    var targetRef: Ref

    constructor (entitiesRef: seq<Ref>, targetRef: Ref)
      ensures fresh(command) && command.entitiesRef == entitiesRef && this.targetRef == targetRef
    {
      command := new EntitiesCommand(entitiesRef);
      this.targetRef := targetRef;
    }

    /**
     * `isValid()`: some entity must resolve first; then the target must
     * resolve into the star system of the first remaining entity, and is then
     * replaced by its current reference.
     */
    method IsValid(resolved: map<Ref, Ref>) returns (valid: Result<bool>)
      modifies this, command
      ensures (exists k :: 0 <= k < |old(command.entitiesRef)| && old(command.entitiesRef)[k].system.None?) ==>
        valid == Err(UNINITIALIZED)
      ensures (forall k :: 0 <= k < |old(command.entitiesRef)| ==> old(command.entitiesRef)[k].system.Some?) ==>
        multiset(command.entitiesRef) == multiset(Survivors(old(command.entitiesRef), resolved)) &&
        valid == (if command.entitiesRef == [] then Ok(false) else TargetCheck(command.GetSystem(), old(targetRef), resolved))
      ensures valid == Ok(true) ==>
        |command.entitiesRef| > 0 && targetRef == resolved[old(targetRef)] && targetRef.system == command.entitiesRef[0].system
      ensures valid != Ok(true) ==> targetRef == old(targetRef)
    {
      valid := command.IsValid(resolved);
      if valid != Ok(true) {
        return;
      }
      valid := TargetCheck(command.GetSystem(), targetRef, resolved);
      if valid == Ok(true) {
        targetRef := resolved[targetRef];
      }
    }
  }

  /**
   * `isValid()`'s loop over the bag: the slot at `i` is either replaced by its
   * current reference (and `i` moves on) or swap-removed (and the moved entry
   * is looked at next).
   */
  method Filter(entities: seq<Ref>, resolved: map<Ref, Ref>) returns (r: Result<seq<Ref>>)
    ensures r.Err? <==> exists k :: 0 <= k < |entities| && entities[k].system.None?
    ensures r.Err? ==> r.error == UNINITIALIZED
    ensures r.Ok? ==> multiset(r.value) == multiset(Survivors(entities, resolved))
  {
    var refs := entities;
    var i := 0;
    ghost var kept: seq<Ref> := [];
    ghost var pending := entities;
    ghost var visited: multiset<Ref> := multiset{};
    while i < |refs|
      invariant refs == kept + pending && i == |kept|
      invariant Filtering(entities, resolved, kept, pending, visited)
      decreases |pending|
    {
      assert refs[i] == pending[0];
      if refs[i].system.None? {
        Unset(entities, resolved, kept, pending, visited);
        return Err(UNINITIALIZED);
      }
      ghost var visited' := visited + multiset{pending[0]};
      ghost var kept0, pending0 := kept, pending;
      refs, i, kept, pending := FilterStep(refs, i, resolved, kept, pending);
      FilteringStep(entities, resolved, kept0, pending0, visited, kept, pending);
      visited := visited';
    }
    Filtered(entities, resolved, kept, pending, visited);
    r := Ok(refs);
  }

  /**
   * The loop invariant of `Filter`: `kept` is the processed prefix, `pending`
   * the rest, `visited` what has left `pending` (all with a star system), and
   * the survivors are conserved.
   */
  ghost predicate Filtering(entities: seq<Ref>, resolved: map<Ref, Ref>, kept: seq<Ref>, pending: seq<Ref>,
                            visited: multiset<Ref>)
    reads visited
  {
    && multiset(pending) + visited == multiset(entities)
    && (forall x :: x in visited ==> x.system.Some?)
    && multiset(kept) + multiset(Survivors(pending, resolved)) == multiset(Survivors(entities, resolved))
  }

  lemma FilteringStep(entities: seq<Ref>, resolved: map<Ref, Ref>, kept: seq<Ref>, pending: seq<Ref>,
                      visited: multiset<Ref>, kept': seq<Ref>, pending': seq<Ref>)
    requires Filtering(entities, resolved, kept, pending, visited)
    requires |pending| > 0 && pending[0].system.Some?
    requires multiset(pending') + multiset{pending[0]} == multiset(pending)
    requires multiset(kept') + multiset(Survivors(pending', resolved)) ==
      multiset(kept) + multiset(Survivors(pending, resolved))
    ensures Filtering(entities, resolved, kept', pending', visited + multiset{pending[0]})
  {
  }

  /** An entry without a star system is met only if the bag holds one. */
  lemma Unset(entities: seq<Ref>, resolved: map<Ref, Ref>, kept: seq<Ref>, pending: seq<Ref>, visited: multiset<Ref>)
    requires Filtering(entities, resolved, kept, pending, visited)
    requires |pending| > 0 && pending[0].system.None?
    ensures exists k :: 0 <= k < |entities| && entities[k].system.None?
  {
    assert pending[0] in multiset(pending);
    assert pending[0] in multiset(entities);
    assert pending[0] in entities;
  }

  /** With nothing pending, every entry had a star system and the kept ones are the survivors. */
  lemma Filtered(entities: seq<Ref>, resolved: map<Ref, Ref>, kept: seq<Ref>, pending: seq<Ref>, visited: multiset<Ref>)
    requires Filtering(entities, resolved, kept, pending, visited)
    requires pending == []
    ensures forall k :: 0 <= k < |entities| ==> entities[k].system.Some?
    ensures multiset(kept) == multiset(Survivors(entities, resolved))
  {
    assert multiset(pending) == multiset{};
    OldHasSystems(entities, visited);
  }

  /** The unvisited part after `Bag.remove` at its first slot: the last entry moves to the front. */
  function Swapped(p: seq<Ref>): (r: seq<Ref>)
    requires |p| > 0
    ensures multiset(r) + multiset{p[0]} == multiset(p)
  {
    if |p| > 1 then
      assert p == [p[0]] + p[1..|p| - 1] + [p[|p| - 1]];
      [p[|p| - 1]] + p[1..|p| - 1]
    else
      assert p == [p[0]];
      []
  }

  /** One turn of `isValid()`'s loop: slot `i`, the first unvisited entry, is replaced or swap-removed. */
  method FilterStep(refs: seq<Ref>, i: int, resolved: map<Ref, Ref>, ghost kept: seq<Ref>, ghost pending: seq<Ref>)
    returns (refs': seq<Ref>, i': int, ghost kept': seq<Ref>, ghost pending': seq<Ref>)
    requires refs == kept + pending && i == |kept| && |pending| > 0
    ensures refs' == if refs[i] in resolved then refs[i := resolved[refs[i]]] else RemoveAt(refs, i)
    ensures i' == if refs[i] in resolved then i + 1 else i
    ensures refs' == kept' + pending' && i' == |kept'| && |pending'| < |pending|
    ensures multiset(pending') + multiset{pending[0]} == multiset(pending)
    ensures multiset(kept') + multiset(Survivors(pending', resolved)) ==
      multiset(kept) + multiset(Survivors(pending, resolved))
  {
    assert refs[i] == pending[0];
    assert pending == [pending[0]] + pending[1..];
    if refs[i] in resolved {
      var current := resolved[refs[i]];
      SplitReplace(kept, pending, current);
      refs', i' := refs[i := current], i + 1;
      kept', pending' := kept + [current], pending[1..];
    } else {
      DropSurvivors(pending, resolved);
      SplitRemove(kept, pending);
      refs', i' := RemoveAt(refs, i), i;
      kept', pending' := kept, Swapped(pending);
    }
  }

  lemma SplitReplace(kept: seq<Ref>, pending: seq<Ref>, x: Ref)
    requires |pending| > 0
    ensures (kept + pending)[|kept| := x] == (kept + [x]) + pending[1..]
  {
  }

  lemma SplitRemove(kept: seq<Ref>, pending: seq<Ref>)
    requires |pending| > 0
    ensures RemoveAt(kept + pending, |kept|) == kept + Swapped(pending)
  {
    var b := kept + pending;
    var r := RemoveAt(b, |kept|);
    if |pending| > 1 {
      assert b[|kept| + 1..|b| - 1] == pending[1..|pending| - 1];
      assert r == r[..|kept|] + r[|kept|..];
    }
  }

  /** Swap-removing an entry that does not resolve leaves the survivors the same. */
  lemma DropSurvivors(p: seq<Ref>, resolved: map<Ref, Ref>)
    requires |p| > 0 && p[0] !in resolved
    ensures multiset(Survivors(Swapped(p), resolved)) == multiset(Survivors(p, resolved))
  {
    if |p| > 1 {
      var last, mid := p[|p| - 1], p[1..|p| - 1];
      assert p[1..] == mid + [last];
      SurvivorsConcat(mid, [last], resolved);
      SurvivorsConcat([last], mid, resolved);
    }
  }

  /** Having visited every entry, none of which lacked a star system, no entry lacks one. */
  lemma OldHasSystems(refs: seq<Ref>, visited: multiset<Ref>)
    requires multiset(refs) == visited
    requires forall x :: x in visited ==> x.system.Some?
    ensures forall k :: 0 <= k < |refs| ==> refs[k].system.Some?
  {
    forall k | 0 <= k < |refs| ensures refs[k].system.Some? {
      assert refs[k] in multiset(refs);
    }
  }
}
