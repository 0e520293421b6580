/**
 * `WeaponSystem`: the integer damage pipeline that carries a hit's energy
 * through a target's shield, armor, part hit points and hull hit points, and
 * the time at which a charging weapon expects its capacitor to be full.
 * Energies are `Long` values; each `Int`/`Long` overflow and each `toInt()`
 * or `toUByte()` conversion of the source is written out.
 */
module WeaponSystem {
  import opened Wrappers
  import JavaMath
  import LongTreeMap
  import Health

  // ------------------------------------------------------------------
  // Charging
  // ------------------------------------------------------------------

  /**
   * `galaxy.time + (capacitor - charge + requestedPower - 1) / requestedPower`
   * in `Long` arithmetic; a zero power divides by zero. Wrapping the sum once
   * is the same as wrapping each of its steps.
   */
  function ExpectedFullAt(time: int, capacitor: int, charge: int, power: int): (r: Result<int>)
    ensures power == 0 <==> r == Err(Arithmetic)
    ensures r.Ok? ==> JavaMath.IsLong(r.value)
  {
    if power == 0 then Err(Arithmetic)
    else Ok(JavaMath.Wrap64(time + JavaMath.Div(JavaMath.Wrap64(capacitor - charge + power - 1), power)))
  }

  /**
   * With a positive power and no overflow, the capacitor is expected full
   * after the least number of ticks whose power covers the missing charge:
   * it is never short, and it overfills by less than one tick's power.
   */
  lemma ExpectedFullAtIsCeiling(time: int, capacitor: int, charge: int, power: int)
    requires power > 0 && charge <= capacitor
    requires JavaMath.IsLong(capacitor - charge + power - 1)
    requires JavaMath.IsLong(time + (capacitor - charge + power - 1) / power) && JavaMath.IsLong(time)
    ensures ExpectedFullAt(time, capacitor, charge, power).Ok?
    ensures var ticks := ExpectedFullAt(time, capacitor, charge, power).value - time;
      ticks >= 0 && ticks * power >= capacitor - charge && (ticks - 1) * power < capacitor - charge
    ensures charge < capacitor ==> ExpectedFullAt(time, capacitor, charge, power).value > time
  {
    var need := capacitor - charge;
    var a := need + power - 1;
    JavaMath.Wrap64Identity(a);
    JavaMath.DivNonNegative(a, power);
    var q := a / power;
    JavaMath.Wrap64Identity(time + q);
    assert q * power + a % power == a;
    assert q * power > need - power;
    assert (q - 1) * power == q * power - power;
    assert q >= 0 by {
      JavaMath.EuclidFacts(a, power);
    }
    if charge < capacitor {
      assert q * power >= need > 0;
      assert q > 0;
    }
  }

  // ------------------------------------------------------------------
  // Shield
  // ------------------------------------------------------------------

  /** `DamagePattern`. */
  datatype Pattern = Laser | Kinetic | Explosive

  /** The part of a hit a raised shield blocks: half the energy of a kinetic hit, all of any other, up to `shieldHP`. */
  function Blocked(shieldHP: int, energy: int, pattern: Pattern): int
  {
    JavaMath.Min(shieldHP, if pattern == Kinetic then JavaMath.Div(energy, 2) else energy)
  }

  /**
   * A raised shield blocks what it can hold of the blocked share, lowers its
   * hit points by exactly that and lets the rest through; a kinetic hit
   * always gets at least half its energy through, any other hit stops at the
   * shield when the shield can hold all of it.
   */
  lemma ShieldBlocks(shieldHP: int, energy: int, pattern: Pattern)
    requires 0 < shieldHP <= JavaMath.LONG_MAX && 0 <= energy <= JavaMath.LONG_MAX
    ensures var b := Blocked(shieldHP, energy, pattern);
      0 <= b <= shieldHP && b <= energy
      && JavaMath.Wrap64(shieldHP - b) == shieldHP - b
      && JavaMath.Wrap64(energy - b) == energy - b
      && (pattern == Kinetic ==> energy - b >= energy - energy / 2)
      && (pattern != Kinetic ==> (energy - b == 0 <==> energy <= shieldHP))
  {
    JavaMath.DivNonNegative(energy, 2);
    var b := Blocked(shieldHP, energy, pattern);
    JavaMath.Wrap64Identity(shieldHP - b);
    JavaMath.Wrap64Identity(energy - b);
  }

  /** The charges, in hull order, after `blocked` is drained from them one shield at a time. */
  function Drain(charges: seq<int>, blocked: int): (r: seq<int>)
    ensures |r| == |charges|
  {
    if charges == [] then []
    else
      var taken := JavaMath.Min(charges[0], blocked);
      var left := JavaMath.Wrap64(blocked - taken);
      [JavaMath.Wrap64(charges[0] - taken)] + (if left == 0 then charges[1..] else Drain(charges[1..], left))
  }

  /** The sum of a sequence, first element first. */
  function Total(xs: seq<int>): int
  {
    if xs == [] then 0 else xs[0] + Total(xs[1..])
  }

  lemma {:induction false} TotalNonNegative(xs: seq<int>)
    requires forall i :: 0 <= i < |xs| ==> xs[i] >= 0
    ensures Total(xs) >= 0
  {
    if xs != [] {
      TotalNonNegative(xs[1..]);
    }
  }

  /**
   * Draining non-negative charges leaves each between 0 and its old value,
   * and takes in hull order: a shield is touched only once every shield
   * before it is empty.
   */
  lemma {:induction false} DrainInOrder(charges: seq<int>, blocked: int)
    requires forall i :: 0 <= i < |charges| ==> 0 <= charges[i] <= JavaMath.LONG_MAX
    requires 0 <= blocked <= JavaMath.LONG_MAX
    ensures var r := Drain(charges, blocked);
      (forall i :: 0 <= i < |charges| ==> 0 <= r[i] <= charges[i])
      && (forall i, j :: 0 <= i < j < |charges| && r[j] < charges[j] ==> r[i] == 0)
  {
    if charges != [] {
      var c, rest := charges[0], charges[1..];
      var taken := JavaMath.Min(c, blocked);
      JavaMath.Wrap64Identity(blocked - taken);
      JavaMath.Wrap64Identity(c - taken);
      var left := blocked - taken;
      DrainStep(charges, blocked);
      var r := Drain(charges, blocked);
      if left == 0 {
        assert r == [c - taken] + rest;
        assert forall j :: 1 <= j < |charges| ==> r[j] == charges[j];
      } else {
        DrainInOrder(rest, left);
        var tail := Drain(rest, left);
        assert r == [0] + tail;
        assert forall j :: 1 <= j < |charges| ==> r[j] == tail[j - 1] && charges[j] == rest[j - 1];
      }
    }
  }

  /** Draining takes exactly the blocked amount from the charges, or all of them when they hold less. */
  lemma {:induction false} DrainSpends(charges: seq<int>, blocked: int)
    requires forall i :: 0 <= i < |charges| ==> 0 <= charges[i] <= JavaMath.LONG_MAX
    requires 0 <= blocked <= JavaMath.LONG_MAX
    ensures Total(Drain(charges, blocked)) == Total(charges) - JavaMath.Min(blocked, Total(charges))
  {
    if charges != [] {
      var c, rest := charges[0], charges[1..];
      var taken := JavaMath.Min(c, blocked);
      JavaMath.Wrap64Identity(blocked - taken);
      JavaMath.Wrap64Identity(c - taken);
      var left := blocked - taken;
      TotalNonNegative(rest);
      DrainStep(charges, blocked);
      var r := Drain(charges, blocked);
      if left == 0 {
        assert r == [c - taken] + rest;
        assert r[1..] == rest;
      } else {
        DrainSpends(rest, left);
        assert r == [0] + Drain(rest, left);
        assert r[1..] == Drain(rest, left);
      }
    }
  }

  /**
   * What a hit of `energy` does to a shield that had `shieldBefore` hit
   * points and charges `chargesBefore`, leaving it with `shieldAfter` and
   * `chargesAfter` and passing on `damage`: a shield without hit points passes
   * it on untouched; a raised one passes on the energy less `Blocked`, loses
   * `Blocked` and drains its parts' charges by it.
   */
  predicate ShieldStruck(shieldAfter: int, chargesAfter: seq<int>, shieldBefore: int, chargesBefore: seq<int>,
                         energy: int, pattern: Pattern, damage: int)
  {
    && (shieldBefore <= 0 ==> damage == energy && shieldAfter == shieldBefore && chargesAfter == chargesBefore)
    && (shieldBefore > 0 ==>
         var blocked := Blocked(shieldBefore, energy, pattern);
         && damage == JavaMath.Wrap64(energy - blocked)
         && shieldAfter == JavaMath.Wrap64(shieldBefore - blocked)
         && chargesAfter == Drain(chargesBefore, blocked))
  }

  /**
   * `applyShieldDamage`: a raised shield blocks its share of the hit, loses
   * that many hit points and drains the same amount from the shield parts'
   * `charges`, given in hull order; the energy it lets through is returned.
   */
  method ApplyShieldDamage(shield: Health.ShieldComponent, charges: array<int>, energy: int, pattern: Pattern)
    returns (damage: int)
    modifies shield, charges
    ensures old(shield.shieldHP) <= 0 ==> unchanged(shield, charges)
    ensures ShieldStruck(shield.shieldHP, charges[..], old(shield.shieldHP), old(charges[..]), energy, pattern, damage)
  {
    damage := energy;
    var shieldHP := shield.shieldHP;
    if shieldHP > 0 {
      var blocked := Blocked(shieldHP, energy, pattern);
      damage := JavaMath.Wrap64(damage - blocked);
      shield.shieldHP := JavaMath.Wrap64(shieldHP - blocked);
      DrainCharges(charges, blocked);
    }
  }

  /** The loop over the hull's shields: `blocked` drained from the charges in order. */
  method DrainCharges(charges: array<int>, blocked: int)
    modifies charges
    ensures charges[..] == Drain(old(charges[..]), blocked)
  {
    ghost var start := charges[..];
    var left := blocked;
    var i := 0;
    while i < charges.Length
      invariant 0 <= i <= charges.Length
      invariant DrainFrom(charges[..], left, i) == DrainFrom(start, blocked, 0)
    {
      var taken := JavaMath.Min(charges[i], left);
      charges[i] := JavaMath.Wrap64(charges[i] - taken);
      left := JavaMath.Wrap64(left - taken);
      if left == 0 {
        break;
      }
      i := i + 1;
    }
    DrainFromIsDrain(start, blocked, 0);
    assert start[..0] == [] && start[0..] == start;
  }

  /** `Drain` in the shape of the loop: the charges before `i` are done, the rest still to drain. */
  function DrainFrom(charges: seq<int>, blocked: int, i: nat): (r: seq<int>)
    requires i <= |charges|
    decreases |charges| - i
  {
    if i == |charges| then charges
    else
      var taken := JavaMath.Min(charges[i], blocked);
      var left := JavaMath.Wrap64(blocked - taken);
      var next := charges[i := JavaMath.Wrap64(charges[i] - taken)];
      if left == 0 then next else DrainFrom(next, left, i + 1)
  }

  lemma {:induction false} DrainFromIsDrain(charges: seq<int>, blocked: int, i: nat)
    requires i <= |charges|
    ensures DrainFrom(charges, blocked, i) == charges[..i] + Drain(charges[i..], blocked)
    decreases |charges| - i
  {
    if i < |charges| {
      var c, left := DrainFromStep(charges, blocked, i);
      var next, front, rest := charges[i := c], charges[..i], charges[i + 1..];
      assert next == front + [c] + rest;
      if left != 0 {
        DrainFromIsDrain(next, left, i + 1);
        assert next[..i + 1] == front + [c] && next[i + 1..] == rest;
      }
    }
  }

  /** One shield of `DrainFrom` and of `Drain`, named: `c` is the shield's new charge, `left` what still has to be drained. */
  lemma DrainFromStep(charges: seq<int>, blocked: int, i: nat) returns (c: int, left: int)
    requires i < |charges|
    ensures DrainFrom(charges, blocked, i)
      == if left == 0 then charges[i := c] else DrainFrom(charges[i := c], left, i + 1)
    ensures Drain(charges[i..], blocked)
      == [c] + (if left == 0 then charges[i + 1..] else Drain(charges[i + 1..], left))
  {
    var taken := JavaMath.Min(charges[i], blocked);
    left := JavaMath.Wrap64(blocked - taken);
    c := JavaMath.Wrap64(charges[i] - taken);
    assert Drain(charges[i..], blocked)
      == [c] + (if left == 0 then charges[i + 1..] else Drain(charges[i + 1..], left)) by {
      DrainStep(charges[i..], blocked);
      assert charges[i..][1..] == charges[i + 1..];
    }
  }

  /** One shield of `Drain`. */
  lemma DrainStep(charges: seq<int>, blocked: int)
    requires charges != []
    ensures var taken := JavaMath.Min(charges[0], blocked);
      var left := JavaMath.Wrap64(blocked - taken);
      Drain(charges, blocked)
      == [JavaMath.Wrap64(charges[0] - taken)] + (if left == 0 then charges[1..] else Drain(charges[1..], left))
  {
  }

  // ------------------------------------------------------------------
  // Armor
  // ------------------------------------------------------------------

  /** What the damage pipeline reads from a ship: its hull's armor resistance per layer. */
  datatype Ship = Ship(armorEnergyPerDamage: seq<int>)

  /** `getArmorResistance(layer)`: the hull's energy per point of armor damage, or 1000 for a missile. */
  function Resistance(ship: Option<Ship>, layer: nat): (r: int)
    requires ship.Some? ==> layer < |ship.value.armorEnergyPerDamage|
    ensures ship.None? ==> r == 1000
  {
    if ship.Some? then ship.value.armorEnergyPerDamage[layer] else 1000
  }

  /** The ship's hull has a positive resistance for each of the first `layers` layers. */
  predicate Resists(ship: Option<Ship>, layers: nat)
  {
    ship.Some? ==> layers <= |ship.value.armorEnergyPerDamage|
                   && forall l :: 0 <= l < layers ==> ship.value.armorEnergyPerDamage[l] > 0
  }

  /** Kotlin's `toUByte()`: the low eight bits. */
  function ToUByte(x: int): Health.UByte
  {
    x % 0x100
  }

  /** A column's cells (innermost layer first) and the energy left after a hit. */
  datatype Hit = Hit(cells: seq<Health.UByte>, damage: int)

  /**
   * A column's cells (innermost layer first) after a hit as written, and the
   * energy left or the exception that stopped the walk; cells struck before
   * the exception keep their new values.
   */
  datatype Struck = Struck(cells: seq<Health.UByte>, outcome: Result<int>)

  /**
   * One column of `applyArmorDamage`, walking from layer `layer - 1` down to
   * layer 0, as written: each intact block takes `min(hp, (damage /
   * resistance).toInt())` points, the energy drops by the `Int` product of
   * points and resistance, and a block that survives with less than its
   * resistance left in the hit stops the hit. An intact block beyond the
   * hull's resistance array throws `IndexOutOfBounds`, one of resistance 0
   * throws `Arithmetic`; a hull whose resistances are all positive never
   * throws.
   */
  function Pierce(cells: seq<Health.UByte>, ship: Option<Ship>, damage: int, layer: nat): (r: Struck)
    requires layer <= |cells|
    ensures |r.cells| == |cells|
    ensures r.outcome.Err? ==> r.outcome.error == IndexOutOfBounds || r.outcome.error == Arithmetic
    ensures Resists(ship, layer) ==> r.outcome.Ok?
    decreases layer
  {
    if layer == 0 then Struck(cells, Ok(damage))
    else
      var l := layer - 1;
      var hp := cells[l] as int;
      if hp > 0 then
        if ship.Some? && l >= |ship.value.armorEnergyPerDamage| then Struck(cells, Err(IndexOutOfBounds))
        else
          var res := Resistance(ship, l);
          if res == 0 then Struck(cells, Err(Arithmetic))
          else
            var s := StrikeAsWritten(hp, res, damage);
            var next := cells[l := ToUByte(s.after)];
            if s.after > 0 && s.left < res then Struck(next, Ok(0))
            else Pierce(next, ship, s.left, l)
      else Pierce(cells, ship, damage, l)
  }

  /**
   * The same walk with the block taken before the conversion to `Int` and
   * the product formed as a `Long`, so that no energy can wrap.
   */
  function PierceIntended(cells: seq<Health.UByte>, ship: Option<Ship>, damage: int, layer: nat): (r: Hit)
    requires layer <= |cells| && Resists(ship, layer)
    ensures |r.cells| == |cells|
    decreases layer
  {
    if layer == 0 then Hit(cells, damage)
    else
      var l := layer - 1;
      var hp := cells[l] as int;
      if hp > 0 then
        var res := Resistance(ship, l);
        var s := Strike(hp, res, damage);
        var next := cells[l := ToUByte(s.after)];
        if s.after > 0 && s.left < res then Hit(next, 0)
        else PierceIntended(next, ship, s.left, l)
      else PierceIntended(cells, ship, damage, l)
  }

  /** A block's points taken, the points it keeps and the energy left after the block is hit. */
  datatype Blow = Blow(block: int, after: int, left: int)

  /** An intact block of `hp` points and resistance `res` hit by `damage`, without any overflow. */
  function Strike(hp: int, res: int, damage: int): (s: Blow)
    requires res != 0
  {
    var block := JavaMath.Min(hp, JavaMath.Div(damage, res));
    Blow(block, hp - block, damage - block * res)
  }

  /**
   * An intact block hit as written: the quotient is cut to an `Int` before
   * the minimum is taken, the product is an `Int` and the energy a `Long`.
   */
  function StrikeAsWritten(hp: int, res: int, damage: int): (s: Blow)
    requires res != 0
  {
    var block := JavaMath.Min(hp, JavaMath.Wrap32(JavaMath.Div(damage, res)));
    Blow(block, JavaMath.Wrap32(hp - block), JavaMath.Wrap64(damage - JavaMath.Wrap32(block * res)))
  }

  /** Up to `INT_MAX` energy a block is hit as intended. */
  lemma StrikeExact(hp: int, res: int, damage: int)
    requires 0 < hp < 0x100 && res > 0 && 0 <= damage <= JavaMath.INT_MAX
    ensures StrikeAsWritten(hp, res, damage) == Strike(hp, res, damage)
    ensures 0 <= Strike(hp, res, damage).left <= damage
  {
    BlockStep(hp, res, damage);
    var q := JavaMath.Div(damage, res);
    assert 0 <= q <= damage by {
      JavaMath.DivNonNegative(damage, res);
      JavaMath.EuclidFacts(damage, res);
      JavaMath.MulMonotone(q, 1, res);
    }
    JavaMath.Wrap32Identity(q);
    var block := JavaMath.Min(hp, q);
    var p := block * res;
    assert 0 <= p <= damage;
    JavaMath.Wrap32Identity(p);
    JavaMath.Wrap64Identity(damage - p);
    JavaMath.Wrap32Identity(hp - block);
  }

  /** The armor points of the first `n` cells, each weighed by its layer's resistance. */
  function Weighted(cells: seq<Health.UByte>, ship: Option<Ship>, n: nat): int
    requires n <= |cells| && Resists(ship, n)
  {
    if n == 0 then 0 else Weighted(cells, ship, n - 1) + Resistance(ship, n - 1) * cells[n - 1]
  }

  lemma {:induction false} WeightedAgree(a: seq<Health.UByte>, b: seq<Health.UByte>, ship: Option<Ship>, n: nat)
    requires n <= |a| && n <= |b| && Resists(ship, n)
    requires forall i :: 0 <= i < n ==> a[i] == b[i]
    ensures Weighted(a, ship, n) == Weighted(b, ship, n)
  {
    if n > 0 {
      WeightedAgree(a, b, ship, n - 1);
    }
  }

  /** One intact block hit by non-negative energy: what it takes and what it lets through. */
  lemma BlockStep(hp: int, res: int, damage: int)
    requires 0 < hp < 0x100 && res > 0 && damage >= 0
    ensures var block := JavaMath.Min(hp, JavaMath.Div(damage, res));
      0 <= block <= hp && 0 <= block * res <= damage
      && (hp - block > 0 ==> damage - block * res < res)
  {
    JavaMath.DivNonNegative(damage, res);
    var q := damage / res;
    JavaMath.EuclidFacts(damage, res);
    assert damage == q * res + damage % res;
    if hp <= q {
      JavaMath.MulMonotone(res, hp, q);
      assert hp * res <= damage;
    } else {
      assert q * res <= damage;
      assert damage - q * res == damage % res;
    }
  }

  /**
   * The intended walk never gains energy, never raises a block and leaves
   * the layers above `layer` alone; a hit gets through only where it
   * destroyed every layer of the column.
   */
  lemma {:induction false} PierceIntendedBounds(cells: seq<Health.UByte>, ship: Option<Ship>, damage: int, layer: nat)
    requires layer <= |cells| && Resists(ship, layer) && damage >= 0
    ensures var r := PierceIntended(cells, ship, damage, layer);
      0 <= r.damage <= damage
      && (forall i :: 0 <= i < |cells| ==> r.cells[i] <= cells[i])
      && (forall i :: layer <= i < |cells| ==> r.cells[i] == cells[i])
      && (r.damage > 0 ==> forall i :: 0 <= i < layer ==> r.cells[i] == 0)
    decreases layer
  {
    if layer > 0 {
      var l := layer - 1;
      var hp := cells[l] as int;
      var res := Resistance(ship, l);
      if hp > 0 {
        BlockStep(hp, res, damage);
        var s := Strike(hp, res, damage);
        var next := cells[l := ToUByte(s.after)];
        if !(s.after > 0 && s.left < res) {
          PierceIntendedBounds(next, ship, s.left, l);
          StruckBounds(cells, ship, damage, layer, PierceIntended(next, ship, s.left, l));
        }
      } else {
        PierceIntendedBounds(cells, ship, damage, l);
      }
    }
  }

  /** `PierceIntendedBounds` where the top block is destroyed and the hit goes on with `rest`. */
  lemma StruckBounds(cells: seq<Health.UByte>, ship: Option<Ship>, damage: int, layer: nat, rest: Hit)
    requires 0 < layer <= |cells| && Resists(ship, layer) && damage >= 0 && cells[layer - 1] > 0
    requires var s := Strike(cells[layer - 1], Resistance(ship, layer - 1), damage);
      s.after == 0 && 0 <= s.left <= damage
      && rest == PierceIntended(cells[layer - 1 := 0], ship, s.left, layer - 1)
      && 0 <= rest.damage <= s.left
      && (forall i :: 0 <= i < |cells| ==> rest.cells[i] <= cells[layer - 1 := 0][i])
      && (forall i :: layer - 1 <= i < |cells| ==> rest.cells[i] == cells[layer - 1 := 0][i])
      && (rest.damage > 0 ==> forall i :: 0 <= i < layer - 1 ==> rest.cells[i] == 0)
    ensures var r := PierceIntended(cells, ship, damage, layer);
      r == rest
      && 0 <= r.damage <= damage
      && (forall i :: 0 <= i < |cells| ==> r.cells[i] <= cells[i])
      && (forall i :: layer <= i < |cells| ==> r.cells[i] == cells[i])
      && (r.damage > 0 ==> forall i :: 0 <= i < layer ==> r.cells[i] == 0)
  {
    assert ToUByte(0) == 0;
  }

  /**
   * The armor the intended walk destroys, weighed by resistance, costs the
   * hit at least that much energy, and exactly the column's weighted armor
   * when the hit gets through.
   */
  lemma {:induction false} PierceIntendedSpends(cells: seq<Health.UByte>, ship: Option<Ship>, damage: int, layer: nat)
    requires layer <= |cells| && Resists(ship, layer) && damage >= 0
    ensures var r := PierceIntended(cells, ship, damage, layer);
      Weighted(cells, ship, layer) - Weighted(r.cells, ship, layer) <= damage - r.damage
      && (r.damage > 0 ==> Weighted(cells, ship, layer) == damage - r.damage)
    decreases layer, 1
  {
    if layer > 0 {
      var l := layer - 1;
      if cells[l] > 0 {
        StruckSpends(cells, ship, damage, layer);
      } else {
        var r := PierceIntended(cells, ship, damage, layer);
        assert r == PierceIntended(cells, ship, damage, l);
        assert cells[l := ToUByte(0)] == cells;
        PierceIntendedBounds(cells, ship, damage, l);
        PierceIntendedSpends(cells, ship, damage, l);
        WeightedPeel(cells, r.cells, ship, layer, 0);
      }
    }
  }

  /** `PierceIntendedSpends` where the top layer's block is intact. */
  lemma {:induction false} StruckSpends(cells: seq<Health.UByte>, ship: Option<Ship>, damage: int, layer: nat)
    requires 0 < layer <= |cells| && Resists(ship, layer) && damage >= 0 && cells[layer - 1] > 0
    ensures var r := PierceIntended(cells, ship, damage, layer);
      Weighted(cells, ship, layer) - Weighted(r.cells, ship, layer) <= damage - r.damage
      && (r.damage > 0 ==> Weighted(cells, ship, layer) == damage - r.damage)
    decreases layer, 0
  {
    var l := layer - 1;
    var res := Resistance(ship, l);
    var s := Strike(cells[l], res, damage);
    BlockStep(cells[l], res, damage);
    if s.after > 0 && s.left < res {
      StoppedSpends(cells, ship, damage, layer);
    } else {
      var next := cells[l := ToUByte(s.after)];
      var r := PierceIntended(cells, ship, damage, layer);
      assert r == PierceIntended(next, ship, s.left, l);
      PierceIntendedBounds(next, ship, s.left, l);
      PierceIntendedSpends(next, ship, s.left, l);
      SpentThrough(cells, r.cells, ship, layer, s, damage, r.damage);
    }
  }

  /** `StruckSpends` where the block survives and stops the hit. */
  lemma StoppedSpends(cells: seq<Health.UByte>, ship: Option<Ship>, damage: int, layer: nat)
    requires 0 < layer <= |cells| && Resists(ship, layer) && damage >= 0 && cells[layer - 1] > 0
    requires var s := Strike(cells[layer - 1], Resistance(ship, layer - 1), damage);
      s.after > 0 && s.left < Resistance(ship, layer - 1)
    ensures var r := PierceIntended(cells, ship, damage, layer);
      r.damage == 0 && Weighted(cells, ship, layer) - Weighted(r.cells, ship, layer) <= damage
  {
    var l := layer - 1;
    var res := Resistance(ship, l);
    var s := Strike(cells[l], res, damage);
    BlockStep(cells[l], res, damage);
    var next := cells[l := ToUByte(s.after)];
    assert PierceIntended(cells, ship, damage, layer) == Hit(next, 0);
    assert next[l] == s.after;
    WeightedPeel(cells, next, ship, layer, s.after);
    WeightedAgree(cells[l := s.after], next, ship, l);
    assert res * (cells[l] - s.after) == s.block * res;
  }

  /** The weighted armor a hit spends on a destroyed top block and on the layers below it. */
  lemma SpentThrough(cells: seq<Health.UByte>, other: seq<Health.UByte>, ship: Option<Ship>, layer: nat,
                     s: Blow, damage: int, through: int)
    requires 0 < layer <= |cells| == |other| && Resists(ship, layer) && damage >= 0 && cells[layer - 1] > 0
    requires s == Strike(cells[layer - 1], Resistance(ship, layer - 1), damage)
    requires s.after == 0 && other[layer - 1] == 0
    requires var next := cells[layer - 1 := 0];
      Weighted(next, ship, layer - 1) - Weighted(other, ship, layer - 1) <= s.left - through
      && (through > 0 ==> Weighted(next, ship, layer - 1) == s.left - through)
    ensures Weighted(cells, ship, layer) - Weighted(other, ship, layer) <= damage - through
    ensures through > 0 ==> Weighted(cells, ship, layer) == damage - through
  {
    var l := layer - 1;
    var res := Resistance(ship, l);
    WeightedPeel(cells, other, ship, layer, 0);
    assert res * (cells[l] - 0) == s.block * res;
    WeightedAgree(cells[l := 0], other, ship, 0);
    if through > 0 {
      WeightedAgree(cells, cells[l := 0], ship, l);
    }
  }

  /** Two columns' weighted armor differs by their difference below the top layer plus the top layer's. */
  lemma WeightedPeel(cells: seq<Health.UByte>, other: seq<Health.UByte>, ship: Option<Ship>, layer: nat, top: Health.UByte)
    requires 0 < layer <= |cells| == |other| && Resists(ship, layer) && other[layer - 1] == top
    ensures Weighted(cells, ship, layer) - Weighted(other, ship, layer)
            == Weighted(cells[layer - 1 := top], ship, layer - 1) - Weighted(other, ship, layer - 1)
               + Resistance(ship, layer - 1) * (cells[layer - 1] - top)
  {
    var l := layer - 1;
    WeightedAgree(cells, cells[l := top], ship, l);
    var res := Resistance(ship, l);
    assert res * cells[l] - res * top == res * (cells[l] - top);
  }

  /** Up to `INT_MAX` energy nothing wraps, and the walk as written is the intended one. */
  lemma {:induction false} PierceAgrees(cells: seq<Health.UByte>, ship: Option<Ship>, damage: int, layer: nat)
    requires layer <= |cells| && Resists(ship, layer) && 0 <= damage <= JavaMath.INT_MAX
    ensures var hit := PierceIntended(cells, ship, damage, layer);
      Pierce(cells, ship, damage, layer) == Struck(hit.cells, Ok(hit.damage))
    decreases layer
  {
    if layer > 0 {
      var l := layer - 1;
      var hp := cells[l] as int;
      if hp > 0 {
        var res := Resistance(ship, l);
        StrikeExact(hp, res, damage);
        var s := Strike(hp, res, damage);
        PierceAgrees(cells[l := ToUByte(s.after)], ship, s.left, l);
      } else {
        PierceAgrees(cells, ship, damage, l);
      }
    }
  }

  /**
   * A hit of 2^32 resistances converts `damage / resistance` to the `Int` 0:
   * a block of 10 points takes nothing and the whole hit passes, where the
   * intended walk destroys the block and keeps 10 resistances of the hit.
   */
  lemma PierceSkipsHugeHit()
    ensures Pierce([10], None, 0x1_0000_0000 * 1000, 1) == Struck([10], Ok(0x1_0000_0000 * 1000))
    ensures PierceIntended([10], None, 0x1_0000_0000 * 1000, 1) == Hit([0], 0x1_0000_0000 * 1000 - 10 * 1000)
  {
    var d := 0x1_0000_0000 * 1000;
    JavaMath.DivNonNegative(d, 1000);
    assert JavaMath.Div(d, 1000) == 0x1_0000_0000;
    assert JavaMath.Wrap32(0x1_0000_0000) == 0;
    JavaMath.Wrap32Identity(0);
    JavaMath.Wrap64Identity(d);
    JavaMath.Wrap32Identity(10);
    assert [10][0 := ToUByte(10)] == [10];
    assert [10][0 := ToUByte(0)] == [0];
  }

  /**
   * Nothing checks a hull's resistances before the walk divides by them: an
   * intact block of resistance 0 throws, one past the end of the array throws,
   * and a negative resistance makes the block take a negative number of points,
   * so that a block of 5 points hit by 1000 energy at resistance -1000 ends
   * with 6 and nothing is handed on.
   */
  lemma PierceOddHulls()
    ensures Pierce([5], Some(Ship([0])), 1000, 1) == Struck([5], Err(Arithmetic))
    ensures Pierce([5], Some(Ship([])), 1000, 1) == Struck([5], Err(IndexOutOfBounds))
    ensures Pierce([0], Some(Ship([])), 1000, 1) == Struck([0], Ok(1000))
    ensures Pierce([5], Some(Ship([-1000])), 1000, 1) == Struck([6], Ok(0))
  {
    assert JavaMath.Div(1000, -1000) == -1;
    JavaMath.Wrap32Identity(-1);
    JavaMath.Wrap32Identity(6);
    JavaMath.Wrap32Identity(1000);
    JavaMath.Wrap64Identity(0);
    assert [5][0 := ToUByte(6)] == [6];
  }

  /** The cells of column `c`, innermost layer first. */
  function Column(a: array2<Health.UByte>, c: nat): (r: seq<Health.UByte>)
    requires c < a.Length1
    reads a
    ensures |r| == a.Length0 && forall l :: 0 <= l < a.Length0 ==> r[l] == a[l, c]
  {
    seq(a.Length0, l requires 0 <= l < a.Length0 reads a => a[l, c])
  }

  /**
   * The column `applyArmorDamage` strikes in a grid of `layers` by `width`
   * cells: the given column or `draw` reduced below the width
   * (`nextInt(width)`). A grid without layers, a random column of a grid
   * without width and a column outside the grid throw before any cell
   * changes.
   */
  function ArmorColumn(layers: nat, width: nat, column: Option<int>, draw: int): (r: Result<nat>)
    ensures r.Ok? <==> layers > 0 && (column.Some? ==> 0 <= column.value < width) && (column.None? ==> width > 0)
    ensures r.Ok? ==> r.value < width && (column.Some? ==> r.value == column.value)
    ensures layers > 0 && column.None? && width == 0 ==> r == Err(IllegalArgument)
  {
    if layers == 0 then Err(IndexOutOfBounds)
    else if column.None? && width == 0 then Err(IllegalArgument)
    else
      var col := if column.Some? then column.value else draw % width;
      if 0 <= col < width then Ok(col) else Err(IndexOutOfBounds)
  }

  /** The cells of a grid, layer by layer; no cells without a grid. */
  ghost function Grid(a: array2?<Health.UByte>): (g: seq<seq<Health.UByte>>)
    reads a
    ensures a == null ==> g == []
    ensures a != null ==> |g| == a.Length0
    ensures a != null ==> forall l :: 0 <= l < a.Length0 ==> |g[l]| == a.Length1
    ensures a != null ==> forall l, c :: 0 <= l < a.Length0 && 0 <= c < a.Length1 ==> g[l][c] == a[l, c]
  {
    if a == null then []
    else seq(a.Length0, l requires 0 <= l < a.Length0 reads a => seq(a.Length1, c requires 0 <= c < a.Length1 reads a => a[l, c]))
  }

  /**
   * What a hit of `energy` does to an armor grid whose cells were `before`:
   * without a grid it throws `NullPointer`; when no column can be struck it
   * throws with the grid unchanged; otherwise the struck column becomes
   * `Pierce` of its old cells, `r` is the outcome, and every other column is
   * as it was.
   */
  ghost predicate ArmorStruck(a: array2?<Health.UByte>, before: seq<seq<Health.UByte>>, energy: int, ship: Option<Ship>,
                              column: Option<int>, draw: int, r: Result<int>)
    reads a
  {
    if a == null then r == Err(NullPointer)
    else
      && |before| == a.Length0 && (forall l :: 0 <= l < a.Length0 ==> |before[l]| == a.Length1)
      && match ArmorColumn(a.Length0, a.Length1, column, draw)
         case Err(e) => r == Err(e) && Grid(a) == before
         case Ok(col) =>
           var hit := Pierce(seq(a.Length0, l requires 0 <= l < a.Length0 => before[l][col]), ship, energy, a.Length0);
           && r == hit.outcome && Column(a, col) == hit.cells
           && forall l, c :: 0 <= l < a.Length0 && 0 <= c < a.Length1 && c != col ==> a[l, c] == before[l][c]
  }

  /**
   * `applyArmorDamage`: the hit strikes one column of the armor grid, the
   * given one or one drawn at random, and walks it from the outer layer
   * inwards as `Pierce` says, throwing where `Pierce` does; the energy left
   * is returned.
   */
  method ApplyArmorDamage(armorC: Health.ArmorComponent, energy: int, ship: Option<Ship>, column: Option<int>, draw: int)
    returns (r: Result<int>)
    modifies armorC.armor
    ensures armorC.armor == old(armorC.armor)
    ensures ArmorStruck(armorC.armor, old(Grid(armorC.armor)), energy, ship, column, draw, r)
  {
    var a := armorC.armor;
    if a == null {
      return Err(NullPointer);
    }
    if a.Length0 == 0 {
      return Err(IndexOutOfBounds);
    }
    var col: int;
    if column.Some? {
      col := column.value;
    } else {
      if a.Length1 == 0 {
        return Err(IllegalArgument);
      }
      col := draw % a.Length1;
    }
    if !(0 <= col < a.Length1) {
      return Err(IndexOutOfBounds);
    }
    ghost var before := Grid(a);
    assert seq(a.Length0, l requires 0 <= l < a.Length0 => before[l][col]) == Column(a, col);
    r := StrikeColumn(a, col, ship, energy);
  }

  /** The walk down one column of a non-empty grid. */
  method StrikeColumn(a: array2<Health.UByte>, col: nat, ship: Option<Ship>, energy: int) returns (r: Result<int>)
    requires col < a.Length1
    modifies a
    ensures var hit := Pierce(old(Column(a, col)), ship, energy, a.Length0);
      r == hit.outcome && Column(a, col) == hit.cells
    ensures forall l, c :: 0 <= l < a.Length0 && 0 <= c < a.Length1 && c != col ==> a[l, c] == old(a[l, c])
  {
    ghost var goal := Pierce(Column(a, col), ship, energy, a.Length0);
    var damage := energy;
    var layer := a.Length0;
    while layer > 0
      invariant 0 <= layer <= a.Length0
      invariant Pierce(Column(a, col), ship, damage, layer) == goal
      invariant forall l, c :: 0 <= l < a.Length0 && 0 <= c < a.Length1 && c != col ==> a[l, c] == old(a[l, c])
    {
      ghost var before := Column(a, col);
      layer := layer - 1;
      var hp := a[layer, col] as int;
      if hp > 0 {
        if ship.Some? && layer >= |ship.value.armorEnergyPerDamage| {
          return Err(IndexOutOfBounds);
        }
        var res := Resistance(ship, layer);
        if res == 0 {
          return Err(Arithmetic);
        }
        var s := StrikeAsWritten(hp, res, damage);
        a[layer, col] := ToUByte(s.after);
        assert Column(a, col) == before[layer := ToUByte(s.after)];
        if s.after > 0 && s.left < res {
          return Ok(0);
        }
        damage := s.left;
      }
    }
    return Ok(damage);
  }

  // ------------------------------------------------------------------
  // Hull hit points
  // ------------------------------------------------------------------

  /** A hull's hit points and the energy left after a hit. */
  datatype HullHit = HullHit(health: int, damage: int)

  /**
   * `applyHPDamage` as written: the hit's energy in thousands, cut to an
   * `Int` before the minimum is taken, comes off the health, which is cut
   * back to a `Short`; the rest is handed on as energy again.
   */
  function HullDamage(health: int, energy: int): HullHit
  {
    var damage := JavaMath.Div(energy, 1000);
    if damage > 0 && health > 0 then
      var taken := JavaMath.Min(health, JavaMath.Wrap32(damage));
      HullHit(JavaMath.Wrap16(JavaMath.Wrap32(health - taken)), JavaMath.Wrap64(JavaMath.Wrap64(damage - taken) * 1000))
    else HullHit(health, JavaMath.Wrap64(damage * 1000))
  }

  /** The same stage with the minimum taken on the `Long` energy, so that nothing wraps. */
  function HullDamageIntended(health: int, energy: int): HullHit
  {
    var damage := JavaMath.Div(energy, 1000);
    if damage > 0 && health > 0 then
      var taken := JavaMath.Min(health, damage);
      HullHit(health - taken, (damage - taken) * 1000)
    else HullHit(health, damage * 1000)
  }

  /**
   * The intended stage takes `min(health, energy / 1000)` points off a
   * living hull and hands on the rest in whole thousands: the points taken
   * and the thousands handed on add up to the thousands received, and
   * energy is handed on only past a destroyed hull.
   */
  lemma HullDamageIntendedTakes(health: Health.Short, energy: int)
    requires energy >= 0
    ensures var r := HullDamageIntended(health, energy);
      r.damage % 1000 == 0 && 0 <= r.damage <= energy
      && (health > 0 ==> 0 <= r.health <= health
                         && (health - r.health) + r.damage / 1000 == energy / 1000
                         && (r.damage > 0 ==> r.health == 0))
      && (health <= 0 ==> r == HullHit(health, energy / 1000 * 1000))
  {
    JavaMath.DivNonNegative(energy, 1000);
    JavaMath.EuclidFacts(energy, 1000);
    var d := energy / 1000;
    var r := HullDamageIntended(health, energy);
    if d > 0 && health > 0 {
      var taken := JavaMath.Min(health, d);
      assert (d - taken) * 1000 <= d * 1000;
      assert (d - taken) * 1000 / 1000 == d - taken;
    } else {
      assert d * 1000 / 1000 == d;
    }
  }

  /** Up to `INT_MAX` thousands nothing wraps, and the stage as written is the intended one. */
  lemma HullDamageAgrees(health: Health.Short, energy: int)
    requires 0 <= energy <= JavaMath.LONG_MAX && energy / 1000 <= JavaMath.INT_MAX
    ensures HullDamage(health, energy) == HullDamageIntended(health, energy)
  {
    JavaMath.DivNonNegative(energy, 1000);
    JavaMath.EuclidFacts(energy, 1000);
    var d := energy / 1000;
    JavaMath.Wrap64Identity(d * 1000);
    if d > 0 && health > 0 {
      JavaMath.Wrap32Identity(d);
      var taken := JavaMath.Min(health, d);
      JavaMath.Wrap64Identity(d - taken);
      JavaMath.Wrap64Identity((d - taken) * 1000);
      JavaMath.Wrap32Identity(health - taken);
      assert JavaMath.Wrap16(health - taken) == health - taken;
    }
  }

  /**
   * A hit of 2^31 thousands converts the damage to the `Int` -2^31: a hull
   * of 100 points keeps them all and twice the energy is handed on, where
   * the intended stage destroys the hull.
   */
  lemma HullDamageWrapsHugeHit()
    ensures HullDamage(100, 0x8000_0000 * 1000) == HullHit(100, 0x1_0000_0000 * 1000)
    ensures HullDamageIntended(100, 0x8000_0000 * 1000) == HullHit(0, (0x8000_0000 - 100) * 1000)
  {
    var e := 0x8000_0000 * 1000;
    JavaMath.DivNonNegative(e, 1000);
    assert JavaMath.Div(e, 1000) == 0x8000_0000;
    assert JavaMath.Wrap32(0x8000_0000) == -0x8000_0000;
    assert JavaMath.Wrap32(100 + 0x8000_0000) == 100 - 0x8000_0000;
    assert JavaMath.Wrap16(100 - 0x8000_0000) == 100;
    JavaMath.Wrap64Identity(0x1_0000_0000);
    JavaMath.Wrap64Identity(0x1_0000_0000 * 1000);
  }

  /** `applyHPDamage` on a hull's `HPComponent`. */
  method ApplyHPDamage(hp: Health.HPComponent, energy: int) returns (damage: int)
    modifies hp
    ensures HullHit(hp.health, damage) == HullDamage(old(hp.health), energy)
  {
    damage := JavaMath.Div(energy, 1000);
    if damage > 0 && hp.health > 0 {
      var hullHP := hp.health;
      var taken := JavaMath.Min(hullHP, JavaMath.Wrap32(damage));
      damage := JavaMath.Wrap64(damage - taken);
      hullHP := JavaMath.Wrap32(hullHP - taken);
      hp.health := JavaMath.Wrap16(hullHP);
    }
    damage := JavaMath.Wrap64(damage * 1000);
  }
  // ------------------------------------------------------------------
  // Part hit points
  // ------------------------------------------------------------------

  /**
   * The random numbers of one turn of the part-damage loop: a volume, reduced
   * below `damageablePartsMaxVolume` (`nextLong(bound)`), and a bag index,
   * reduced below the bag's size (`nextInt(size)`).
   */
  datatype Draw = Draw(volume: int, index: int)

  /**
   * What a hit of `energy` does to a target's part hit points, whose cells
   * were `cellsBefore` and total `totalBefore`: below a thousand energy or
   * with no part hit points left nothing changes and the whole thousands
   * are handed on; otherwise the loop ends only when the damage is spent or
   * no part is damageable, so energy is handed on only past the last
   * damageable part; up to `INT_MAX` thousands, the points the parts lose
   * and the thousands handed on add up to the thousands received, and no
   * cell gains points. The parts stay well formed.
   */
  ghost predicate PartsStruck(parts: Health.PartsHPComponent, cellsBefore: seq<Health.UByte>, totalBefore: int,
                              energy: int, r: Result<int>)
    reads parts, parts.partHP
  {
    && parts.Valid()
    && var d := JavaMath.Div(energy, 1000);
    && (!(d > 0 && totalBefore > 0) ==>
         r == Ok(JavaMath.Wrap64(d * 1000)) && parts.partHP[..] == cellsBefore && parts.totalPartHP == totalBefore)
    && (d > 0 && totalBefore > 0 && r.Ok? && r.value != 0 ==> |parts.damageableParts| == 0)
    && (r.Ok? && 0 < d <= JavaMath.INT_MAX ==>
         && r.value % 1000 == 0 && 0 <= r.value <= d * 1000
         && Health.Sum(cellsBefore) - Health.Sum(parts.partHP[..]) == d - r.value / 1000)
    && (d <= JavaMath.INT_MAX ==> NoCellGains(cellsBefore, parts.partHP[..]))
  }

  /** No cell has more hit points `after` than `before`, and there are as many cells. */
  predicate NoCellGains(before: seq<Health.UByte>, after: seq<Health.UByte>)
  {
    |after| == |before| && forall k :: 0 <= k < |before| ==> after[k] <= before[k]
  }

  /** Lowering one cell gains no cell points. */
  lemma LoweredCell(before: seq<Health.UByte>, j: nat, health: Health.UByte)
    requires j < |before| && health <= before[j]
    ensures NoCellGains(before, before[j := health])
  {
  }

  /** Two steps that gain no points together gain none. */
  lemma NoCellGainsChain(a: seq<Health.UByte>, b: seq<Health.UByte>, c: seq<Health.UByte>)
    requires NoCellGains(a, b) && NoCellGains(b, c)
    ensures NoCellGains(a, c)
  {
  }

  /**
   * Every part the damageable map lists has a cell with hit points left,
   * and is listed once, with no other listed part on the same cell. `set`
   * gives this for a hull whose parts all have hit points, and every turn
   * of the part-damage loop keeps it.
   */
  ghost predicate Alive(m: seq<Health.Entry>, cells: seq<Health.UByte>)
  {
    forall p :: p in Health.Members(m) ==>
      && 0 <= p.index < |cells| && cells[p.index] > 0
      && Health.Members(m)[p] == 1
      && forall q :: q in Health.Members(m) && q.index == p.index ==> q == p
  }

  /** A non-empty map whose parts are alive leaves some hit points in the cells. */
  lemma AliveHasPoints(m: seq<Health.Entry>, cells: seq<Health.UByte>)
    requires Health.Wellformed(m) && m != [] && Alive(m, cells)
    ensures Health.Sum(cells) > 0
  {
    var p := m[0].value[0];
    Health.MemberOfBag(m, 0, p);
    Health.SumAtLeast(cells, p.index);
  }

  /**
   * A turn that sets a listed, alive part to `health` keeps the map alive:
   * a part left with points stays listed, and a part set to 0 leaves the
   * map, the only part on its cell.
   */
  lemma AliveAfterTurn(d: Health.Damageable, cells: seq<Health.UByte>, ref: Health.PartRef, at: nat, health: Health.UByte)
    requires Health.Wellformed(d.parts) && at < |d.parts| && ref in d.parts[at].value && Alive(d.parts, cells)
    requires 0 <= ref.index < |cells|
    ensures cells[ref.index] > 0
    ensures Alive(Health.Damaged(d, ref, cells[ref.index], health, Some(at)).parts, cells[ref.index := health])
  {
    Health.MemberOfBag(d.parts, at, ref);
    var after := Health.Damaged(d, ref, cells[ref.index], health, Some(at)).parts;
    var now := cells[ref.index := health];
    var before := Health.Members(d.parts);
    if health == 0 {
      Health.DropWithin(d, ref, at);
      var left := Health.Members(after);
      forall p | p in left
        ensures 0 <= p.index < |now| && now[p.index] > 0 && left[p] == 1
        ensures forall q :: q in left && q.index == p.index ==> q == p
      {
        assert p in before && left[p] <= before[p] <= 1;
        assert p != ref by {
          assert left[ref] <= before[ref] - 1;
        }
      }
    } else {
      forall p | p in before
        ensures 0 <= p.index < |now| && now[p.index] > 0
      {
      }
    }
  }

  /**
   * One turn of the part-damage loop as written: `min(partHP,
   * damage.toInt())` is taken off the part's Int hit points and the Long
   * damage.
   */
  datatype Turn = Turn(taken: int, left: int, health: int)

  function PartTurn(partHP: int, damage: int): Turn
  {
    var taken := JavaMath.Min(partHP, JavaMath.Wrap32(damage));
    Turn(taken, JavaMath.Wrap64(damage - taken), JavaMath.Wrap32(partHP - taken))
  }

  /** One turn as intended: the minimum is taken on the Long damage itself. */
  function PartTurnIntended(partHP: int, damage: int): Turn
  {
    var taken := JavaMath.Min(partHP, damage);
    Turn(taken, damage - taken, partHP - taken)
  }

  /** Up to `INT_MAX` damage the turn as written is the intended one. */
  lemma PartTurnAgrees(partHP: Health.UByte, damage: int)
    requires 0 <= damage <= JavaMath.INT_MAX
    ensures PartTurn(partHP, damage) == PartTurnIntended(partHP, damage)
  {
    JavaMath.Wrap32Identity(damage);
    var taken := JavaMath.Min(partHP, damage);
    JavaMath.Wrap64Identity(damage - taken);
    JavaMath.Wrap32Identity(partHP - taken);
  }

  /**
   * An intended turn on a part with points and a positive damage takes at
   * least one point, no more than either, and either destroys the part or
   * spends the damage; what is taken comes off both.
   */
  lemma PartTurnIntendedProgress(partHP: Health.UByte, damage: int)
    requires 0 < partHP && 0 < damage
    ensures var t := PartTurnIntended(partHP, damage);
      && 0 < t.taken <= partHP && t.taken <= damage
      && t.left == damage - t.taken && 0 <= t.left < damage
      && t.health == partHP - t.taken && 0 <= t.health < partHP
      && (t.health == 0 || t.left == 0)
  {
    var t := PartTurnIntended(partHP, damage);
    assert t.taken == if partHP <= damage then partHP else damage;
  }

  /**
   * As written, a damage that is a positive multiple of 2^32 narrows to 0:
   * the turn takes nothing, the part keeps its points and the damage stays,
   * so the loop never spends it.
   */
  lemma PartTurnStalls(partHP: Health.UByte, damage: int)
    requires damage % 0x1_0000_0000 == 0 && JavaMath.IsLong(damage)
    ensures PartTurn(partHP, damage) == Turn(0, damage, partHP)
  {
    assert JavaMath.Wrap32(damage) == 0;
    JavaMath.Wrap64Identity(damage);
    JavaMath.Wrap32Identity(partHP);
  }

  /**
   * `applyPartHPDamage`: with at least a thousand energy and any part hit
   * points left, each turn picks a damageable part by volume (the first
   * volume key above the drawn volume, then a part of that bag), takes as
   * many of its points as the damage allows through `setPartHP`, and stops
   * once the damage is spent or no part is damageable; the damage left is
   * handed on in thousands. Each turn uses the next draw; when the draws
   * run out before the loop ends the result is `Unfinished`. Enough draws
   * always end it when every listed part is alive and the damage is at
   * most `INT_MAX` thousands; a damage that is a positive multiple of 2^32
   * never ends it and changes nothing.
   */
  method ApplyPartHPDamage(parts: Health.PartsHPComponent, energy: int, draws: seq<Draw>) returns (r: Result<int>)
    requires parts.Valid()
    modifies parts, parts.partHP
    ensures parts.partHP == old(parts.partHP)
    ensures !(JavaMath.Div(energy, 1000) > 0 && old(parts.totalPartHP) > 0) ==> unchanged(parts, parts.partHP)
    ensures PartsStruck(parts, old(parts.partHP[..]), old(parts.totalPartHP), energy, r)
    ensures r == Err(Unfinished) ==> |parts.damageableParts| > 0
    ensures var d := JavaMath.Div(energy, 1000);
      (0 < d <= JavaMath.INT_MAX && Alive(old(parts.damageableParts), old(parts.partHP[..]))
       && |draws| >= Health.Sum(old(parts.partHP[..]))) ==> r != Err(Unfinished)
    ensures var d := JavaMath.Div(energy, 1000);
      0 < d && d % 0x1_0000_0000 == 0 && JavaMath.IsLong(d) && old(parts.totalPartHP) > 0 && |old(parts.damageableParts)| > 0
      ==> r.Err? && parts.partHP[..] == old(parts.partHP[..]) && parts.damageableParts == old(parts.damageableParts)
  {
    var damage := JavaMath.Div(energy, 1000);
    if !(damage > 0 && parts.totalPartHP > 0) {
      return Ok(JavaMath.Wrap64(damage * 1000));
    }
    ghost var d := damage;
    ghost var cells := parts.partHP[..];
    ghost var map0 := parts.damageableParts;
    ghost var alive := d <= JavaMath.INT_MAX && Alive(map0, cells);
    ghost var stall := d % 0x1_0000_0000 == 0 && JavaMath.IsLong(d);
    var i := 0;
    while |parts.damageableParts| > 0
      invariant 0 <= i <= |draws|
      invariant parts.Valid() && parts.partHP == old(parts.partHP)
      invariant d <= JavaMath.INT_MAX ==>
        0 < damage <= d && Health.Sum(cells) - Health.Sum(parts.partHP[..]) == d - damage
      invariant alive ==> Alive(parts.damageableParts, parts.partHP[..]) && i <= d - damage
      invariant stall ==> damage == d && parts.partHP[..] == cells && parts.damageableParts == map0
      invariant d <= JavaMath.INT_MAX ==> NoCellGains(cells, parts.partHP[..])
      decreases |draws| - i
    {
      if i == |draws| {
        if alive {
          AliveHasPoints(parts.damageableParts, parts.partHP[..]);
        }
        return Err(Unfinished);
      }
      ghost var prior := parts.partHP[..];
      var turn := DamageOnePart(parts, draws[i], damage);
      if d <= JavaMath.INT_MAX {
        NoCellGainsChain(cells, prior, parts.partHP[..]);
      }
      if turn.Err? {
        return turn;
      }
      damage := turn.value;
      i := i + 1;
      if damage == 0 {
        break;
      }
    }
    if d <= JavaMath.INT_MAX {
      JavaMath.Wrap64Identity(damage * 1000);
    }
    return Ok(JavaMath.Wrap64(damage * 1000));
  }

  /**
   * One turn of the part-damage loop: the part the draw picks loses what
   * `PartTurn` takes and the damage left is returned; a non-positive largest
   * volume, a drawn volume with no key above it, a part outside the cell
   * array and a health `setPartHP` refuses all throw, changing nothing.
   */
  method DamageOnePart(parts: Health.PartsHPComponent, draw: Draw, damage: int) returns (r: Result<int>)
    requires parts.Valid() && |parts.damageableParts| > 0
    modifies parts, parts.partHP
    ensures parts.Valid() && parts.partHP == old(parts.partHP)
    ensures r.Err? ==> r.error != Unfinished
    ensures r.Err? ==> parts.partHP[..] == old(parts.partHP[..]) && parts.damageableParts == old(parts.damageableParts)
    ensures r.Ok? && 0 <= damage <= JavaMath.INT_MAX ==>
      0 <= r.value <= damage && Health.Sum(old(parts.partHP[..])) - Health.Sum(parts.partHP[..]) == damage - r.value
    ensures r.Ok? && 0 < damage <= JavaMath.INT_MAX && Alive(old(parts.damageableParts), old(parts.partHP[..])) ==>
      r.value < damage && Alive(parts.damageableParts, parts.partHP[..])
    ensures r.Ok? && damage % 0x1_0000_0000 == 0 && JavaMath.IsLong(damage) ==>
      r.value == damage && parts.partHP[..] == old(parts.partHP[..]) && parts.damageableParts == old(parts.damageableParts)
    ensures r.Ok? ==> (exists p :: (p in Health.Members(old(parts.damageableParts)) && 0 <= p.index < parts.partHP.Length
                                     && parts.partHP[..] == old(parts.partHP[..])[p.index := parts.partHP[p.index]]
                                     && (0 <= damage <= JavaMath.INT_MAX ==> parts.partHP[p.index] <= old(parts.partHP[p.index]))))
    ensures 0 <= damage <= JavaMath.INT_MAX ==> NoCellGains(old(parts.partHP[..]), parts.partHP[..])
  {
    var picked := PickPart(parts, draw);
    if picked.Err? {
      return Err(picked.error);
    }
    var (at, ref) := picked.value;
    ghost var before := parts.partHP[..];
    ghost var state := parts.State();
    r := StrikePart(parts, at, ref, damage);
    if r.Ok? {
      var t := PartTurn(before[ref.index], damage);
      Health.MemberOfBag(state.parts, at, ref);
      if 0 <= damage <= JavaMath.INT_MAX {
        PartTurnAgrees(before[ref.index], damage);
        LoweredCell(before, ref.index, t.health);
        Health.SumUpdate(before, ref.index, t.health);
        if 0 < damage && Alive(state.parts, before) {
          AliveAfterTurn(state, before, ref, at, t.health);
          PartTurnIntendedProgress(before[ref.index], damage);
        }
      }
      if damage % 0x1_0000_0000 == 0 && JavaMath.IsLong(damage) {
        PartTurnStalls(before[ref.index], damage);
        assert parts.partHP[..] == before;
      }
    }
  }

  /**
   * The part a draw picks: the bag of the first volume key above the drawn
   * volume (`nextLong(damageablePartsMaxVolume)`), then its only part or
   * the part at the drawn index; a non-positive largest volume is an
   * IllegalArgumentException and no key above the drawn volume a
   * NullPointerException.
   */
  method PickPart(parts: Health.PartsHPComponent, draw: Draw) returns (r: Result<(nat, Health.PartRef)>)
    requires Health.Wellformed(parts.damageableParts)
    ensures r.Err? ==> r.error in {IllegalArgument, NullPointer}
    ensures r.Err? <==> (parts.damageablePartsMaxVolume <= 0
      || LongTreeMap.Higher(parts.damageableParts, draw.volume % parts.damageablePartsMaxVolume) == |parts.damageableParts|)
    ensures r.Ok? ==> r.value.0 < |parts.damageableParts| && r.value.1 in parts.damageableParts[r.value.0].value
    ensures r.Ok? ==> r.value.0 == LongTreeMap.Higher(parts.damageableParts, draw.volume % parts.damageablePartsMaxVolume)
    ensures r.Ok? ==> var bag := parts.damageableParts[r.value.0].value;
      r.value.1 == if |bag| == 1 then bag[0] else bag[draw.index % |bag|]
  {
    var maxVolume := parts.damageablePartsMaxVolume;
    if maxVolume <= 0 {
      return Err(IllegalArgument);
    }
    var at := LongTreeMap.Higher(parts.damageableParts, draw.volume % maxVolume);
    if at == |parts.damageableParts| {
      return Err(NullPointer);
    }
    var bag := parts.damageableParts[at].value;
    var ref := if |bag| == 1 then bag[0] else bag[draw.index % |bag|];
    return Ok((at, ref));
  }

  /**
   * The rest of a turn on the picked part: `PartTurn` of its points and the
   * damage, written back through `setPartHP` with the picked entry.
   */
  method StrikePart(parts: Health.PartsHPComponent, at: nat, ref: Health.PartRef, damage: int) returns (r: Result<int>)
    requires parts.Valid() && at < |parts.damageableParts| && ref in parts.damageableParts[at].value
    modifies parts, parts.partHP
    ensures parts.Valid() && parts.partHP == old(parts.partHP)
    ensures r.Err? ==> r.error != Unfinished
    ensures r.Err? ==> parts.partHP[..] == old(parts.partHP[..]) && parts.damageableParts == old(parts.damageableParts)
    ensures r.Ok? ==> (0 <= ref.index < parts.partHP.Length
      && var t := PartTurn(old(parts.partHP[ref.index]), damage);
      && r.value == t.left
      && parts.partHP[..] == old(parts.partHP[..])[ref.index := t.health]
      && parts.damageableParts == Health.Damaged(old(parts.State()), ref, old(parts.partHP[ref.index]), t.health, Some(at)).parts)
  {
    var got := parts.GetPartHP(ref);
    if got.Err? {
      return Err(got.error);
    }
    var partHP := got.value;
    var t := PartTurn(partHP, damage);
    var outcome := parts.SetPartHP(ref, t.health, Some(at));
    if outcome.Fail? {
      return Err(outcome.error);
    }
    return Ok(t.left);
  }

  // ------------------------------------------------------------------
  // The pipeline
  // ------------------------------------------------------------------

  /**
   * A stage lets the hit go on when it did not run or ran and handed on a
   * non-zero energy.
   */
  predicate Passes(stage: Option<Result<int>>)
  {
    stage.None? || (stage.value.Ok? && stage.value.value != 0)
  }

  /** The energy a stage hands to the next one: its result when it ran, else what it was given. */
  function Handed(stage: Option<Result<int>>, energy: int): (r: int)
    ensures stage.Some? && stage.value.Ok? ==> r == stage.value.value
    ensures stage.None? ==> r == energy
  {
    if stage.Some? && stage.value.Ok? then stage.value.value else energy
  }

  /**
   * How `applyDamage` ends from a stage on, `rest` being how it ends after
   * that stage: a stage that throws ends it with its exception, one that
   * hands on nothing ends it with the target alive (`Ok(false)`), and any
   * other stage leaves the ending to the stages after it.
   */
  function Ends(stage: Option<Result<int>>, rest: Result<bool>): Result<bool>
  {
    if stage.Some? && stage.value.Err? then Err(stage.value.error)
    else if !Passes(stage) then Ok(false)
    else rest
  }

  /**
   * How `applyDamage` ends for its stages in order; a hit that every stage
   * lets go on destroys the target (`Ok(true)`).
   */
  function Verdict(stages: seq<Option<Result<int>>>): Result<bool>
  {
    if |stages| == 0 then Ok(true) else Ends(stages[0], Verdict(stages[1..]))
  }

  /** The verdict on the four stages of `applyDamage`, stage by stage. */
  lemma VerdictOfFour(shield: Option<Result<int>>, armor: Option<Result<int>>, parts: Option<Result<int>>,
                      hull: Option<Result<int>>)
    ensures Verdict([shield, armor, parts, hull]) == Ends(shield, Ends(armor, Ends(parts, Ends(hull, Ok(true)))))
  {
    assert [shield, armor, parts, hull][1..] == [armor, parts, hull];
    assert [armor, parts, hull][1..] == [parts, hull];
    assert [parts, hull][1..] == [hull];
    assert [hull][1..] == [];
    assert Verdict([hull]) == Ends(hull, Ok(true));
    assert Verdict([parts, hull]) == Ends(parts, Verdict([hull]));
    assert Verdict([armor, parts, hull]) == Ends(armor, Verdict([parts, hull]));
  }

  /**
   * The target is destroyed exactly when every stage lets the hit go on; it
   * survives exactly when some stage hands on nothing after every earlier
   * one let the hit go on; and an exception is the one thrown by the first
   * stage that did not let the hit go on.
   */
  lemma {:induction false} VerdictMeans(stages: seq<Option<Result<int>>>)
    ensures Verdict(stages) == Ok(true) <==> forall i :: 0 <= i < |stages| ==> Passes(stages[i])
    ensures Verdict(stages) == Ok(false) <==> exists i :: 0 <= i < |stages| && stages[i] == Some(Ok(0))
                                                      && forall j :: 0 <= j < i ==> Passes(stages[j])
    ensures Verdict(stages).Err? ==> exists i :: 0 <= i < |stages| && stages[i] == Some(Err(Verdict(stages).error))
                                                 && forall j :: 0 <= j < i ==> Passes(stages[j])
  {
    if |stages| > 0 && Passes(stages[0]) {
      var rest := stages[1..];
      VerdictMeans(rest);
      assert forall i :: 1 <= i < |stages| ==> stages[i] == rest[i - 1];
      if Verdict(stages) == Ok(false) {
        var i :| 0 <= i < |rest| && rest[i] == Some(Ok(0)) && forall j :: 0 <= j < i ==> Passes(rest[j]);
        assert stages[i + 1] == Some(Ok(0));
      }
      if Verdict(stages).Err? {
        var i :| 0 <= i < |rest| && rest[i] == Some(Err(Verdict(stages).error)) && forall j :: 0 <= j < i ==> Passes(rest[j]);
        assert stages[i + 1] == rest[i];
      }
    } else if |stages| > 0 {
      assert !Passes(stages[0]);
    }
  }

  /**
   * The shield stage of `applyDamage` on a target that has a shield when
   * `shielded`, whose shield had `shieldBefore` hit points and charges
   * `chargesBefore` and has `shieldAfter` and `chargesAfter`: it runs exactly on a shielded
   * target; without a ship it throws and changes nothing, otherwise it
   * strikes the shield as `ShieldStruck` says.
   */
  predicate ShieldDone(shielded: bool, shieldAfter: int, chargesAfter: seq<int>, shieldBefore: int, chargesBefore: seq<int>,
                       ship: Option<Ship>, energy: int, pattern: Pattern, stage: Option<Result<int>>)
  {
    && (stage.Some? <==> shielded)
    && (!shielded ==> chargesAfter == chargesBefore)
    && (shielded && ship.None? ==>
         stage == Some(Err(NullPointer)) && shieldAfter == shieldBefore && chargesAfter == chargesBefore)
    && (shielded && ship.Some? ==>
         stage.value.Ok? && ShieldStruck(shieldAfter, chargesAfter, shieldBefore, chargesBefore, energy, pattern, stage.value.value))
  }

  /**
   * The armor stage of `applyDamage` on a grid whose cells were `grid`: it
   * runs on a target with armor exactly when `runs`; a run strikes the grid
   * with `damage` as `ArmorStruck` says, and a skipped grid keeps its cells.
   */
  ghost predicate ArmorDone(armor: Health.ArmorComponent?, grid: seq<seq<Health.UByte>>, runs: bool, damage: int,
                            ship: Option<Ship>, column: Option<int>, draw: int, stage: Option<Result<int>>)
    reads armor, if armor != null then {armor.armor} else {}
  {
    && (stage.Some? <==> armor != null && runs)
    && (armor != null ==>
         if stage.Some? then ArmorStruck(armor.armor, grid, damage, ship, column, draw, stage.value)
         else Grid(armor.armor) == grid)
  }

  /** What a hit can change in a target's part hit points; nothing without them. */
  datatype PartsView = PartsView(total: int, cells: seq<Health.UByte>, maxVolume: int, damageable: seq<Health.Entry>)

  /** The part hit points of `parts` as a value. */
  ghost function ViewOf(parts: Health.PartsHPComponent?): PartsView
    reads parts, if parts != null then {parts.partHP} else {}
  {
    if parts == null then PartsView(0, [], 0, [])
    else PartsView(parts.totalPartHP, parts.partHP[..], parts.damageablePartsMaxVolume, parts.damageableParts)
  }

  /**
   * The part stage of `applyDamage` on parts that were `before`: it runs on
   * a target with part hit points exactly when `runs`; a run strikes the
   * parts with `energy` as `PartsStruck` says, and skipped parts are as they
   * were. The parts stay well formed.
   */
  ghost predicate PartsDone(parts: Health.PartsHPComponent?, before: PartsView, runs: bool, energy: int,
                            stage: Option<Result<int>>)
    reads parts, if parts != null then {parts.partHP} else {}
  {
    && (stage.Some? <==> parts != null && runs)
    && (parts != null ==>
         if stage.Some? then PartsStruck(parts, before.cells, before.total, energy, stage.value)
         else parts.Valid() && ViewOf(parts) == before)
  }

  /**
   * The hull stage of `applyDamage` on a hull that had `health` points: it
   * runs on a target with hit points exactly when `runs`; a run leaves the
   * health and hands on the energy as `HullDamage` says, and a skipped hull
   * keeps its health.
   */
  ghost predicate HullDone(hp: Health.HPComponent?, health: int, runs: bool, energy: int, stage: Option<Result<int>>)
    reads hp
  {
    && (stage.Some? <==> hp != null && runs)
    && (hp != null ==>
         if stage.Some? then stage.value.Ok? && HullHit(hp.health, stage.value.value) == HullDamage(health, energy)
         else hp.health == health)
  }

  /**
   * The stages of `applyDamage` after the shield, which run only when
   * `runs`: the armor takes `damage`, and the part and hull stages, each
   * running only when every earlier stage let the hit go on, take `energy`.
   */
  ghost predicate OnwardsDone(armor: Health.ArmorComponent?, grid: seq<seq<Health.UByte>>, parts: Health.PartsHPComponent?,
                              view: PartsView, hp: Health.HPComponent?, health: int, runs: bool, damage: int, energy: int,
                              ship: Option<Ship>, column: Option<int>, draw: int,
                              armorOut: Option<Result<int>>, partsOut: Option<Result<int>>, hullOut: Option<Result<int>>)
    reads armor, if armor != null then {armor.armor} else {}, parts, if parts != null then {parts.partHP} else {}, hp
  {
    && ArmorDone(armor, grid, runs, damage, ship, column, draw, armorOut)
    && PartsDone(parts, view, runs && Passes(armorOut), energy, partsOut)
    && HullDone(hp, health, runs && Passes(armorOut) && Passes(partsOut), energy, hullOut)
  }

  /**
   * `applyDamage`: the stages present on the target take the hit in turn,
   * shield, armor, part hit points, hull hit points, and the hit ends at the
   * first stage that throws or hands on nothing; a stage after that is
   * skipped. The armor takes what the shield let through, but the part and
   * hull stages are handed the original energy. The ghost results are what
   * each stage returned, `None` for one that did not run; `Verdict` says how
   * they decide the result.
   */
  method ApplyDamage(energy: int, pattern: Pattern, ship: Option<Ship>, charges: array<int>,
                     shield: Health.ShieldComponent?, armor: Health.ArmorComponent?, column: Option<int>, draw: int,
                     parts: Health.PartsHPComponent?, draws: seq<Draw>, hp: Health.HPComponent?)
    returns (r: Result<bool>, ghost shieldOut: Option<Result<int>>, ghost armorOut: Option<Result<int>>,
             ghost partsOut: Option<Result<int>>, ghost hullOut: Option<Result<int>>)
    requires parts != null ==> parts.Valid()
    modifies shield, charges, parts, hp
    modifies if parts != null then {parts.partHP} else {}
    modifies if armor != null && armor.armor != null then {armor.armor} else {}
    ensures r == Verdict([shieldOut, armorOut, partsOut, hullOut])
    ensures ShieldDone(shield != null, if shield != null then shield.shieldHP else 0, charges[..],
                       old(if shield != null then shield.shieldHP else 0), old(charges[..]),
                       ship, energy, pattern, shieldOut)
    ensures OnwardsDone(armor, old(if armor != null then Grid(armor.armor) else []), parts, old(ViewOf(parts)),
                        hp, old(if hp != null then hp.health else 0), Passes(shieldOut), Handed(shieldOut, energy), energy,
                        ship, column, draw, armorOut, partsOut, hullOut)
  {
    ghost var grid := if armor != null then Grid(armor.armor) else [];
    ghost var view := ViewOf(parts);
    ghost var health := if hp != null then hp.health else 0;
    var stage := HitShield(energy, pattern, ship, charges, shield);
    shieldOut := stage;
    if !Passes(stage) {
      VerdictOfFour(shieldOut, None, None, None);
      return if stage.value.Err? then Err(stage.value.error) else Ok(false), shieldOut, None, None, None;
    }
    r, armorOut, partsOut, hullOut := ArmorOnwards(Handed(stage, energy), energy, ship, armor, column, draw, parts, draws, hp,
                                                   grid, view, health);
    VerdictOfFour(shieldOut, armorOut, partsOut, hullOut);
  }

  /** The shield stage of `applyDamage`, `None` for a target without a shield. */
  method HitShield(energy: int, pattern: Pattern, ship: Option<Ship>, charges: array<int>, shield: Health.ShieldComponent?)
    returns (stage: Option<Result<int>>)
    modifies shield, charges
    ensures ShieldDone(shield != null, if shield != null then shield.shieldHP else 0, charges[..],
                       old(if shield != null then shield.shieldHP else 0), old(charges[..]),
                       ship, energy, pattern, stage)
  {
    if shield == null {
      return None;
    }
    if ship.None? {
      return Some(Err(NullPointer));
    }
    var damage := ApplyShieldDamage(shield, charges, energy, pattern);
    return Some(Ok(damage));
  }

  /**
   * The stages of `applyDamage` from the armor on, the armor taking `damage`
   * and the later stages `energy`; `grid`, `view` and `health` are the armor
   * cells, the part hit points and the hull health before the hit.
   */
  method ArmorOnwards(damage: int, energy: int, ship: Option<Ship>, armor: Health.ArmorComponent?, column: Option<int>,
                      draw: int, parts: Health.PartsHPComponent?, draws: seq<Draw>, hp: Health.HPComponent?,
                      ghost grid: seq<seq<Health.UByte>>, ghost view: PartsView, ghost health: int)
    returns (r: Result<bool>, ghost armorOut: Option<Result<int>>, ghost partsOut: Option<Result<int>>,
             ghost hullOut: Option<Result<int>>)
    requires parts != null ==> parts.Valid()
    requires armor != null ==> grid == Grid(armor.armor)
    requires view == ViewOf(parts)
    requires hp != null ==> health == hp.health
    modifies parts, hp
    modifies if parts != null then {parts.partHP} else {}
    modifies if armor != null && armor.armor != null then {armor.armor} else {}
    ensures r == Ends(armorOut, Ends(partsOut, Ends(hullOut, Ok(true))))
    ensures OnwardsDone(armor, grid, parts, view, hp, health, true, damage, energy, ship, column, draw,
                        armorOut, partsOut, hullOut)
  {
    armorOut := None;
    if armor != null {
      var left := ApplyArmorDamage(armor, damage, ship, column, draw);
      armorOut := Some(left);
      if left.Err? {
        return Err(left.error), armorOut, None, None;
      }
      if left.value == 0 {
        return Ok(false), armorOut, None, None;
      }
    }
    r, partsOut, hullOut := PartsOnwards(energy, parts, draws, hp, view, health);
  }

  /** The part and hull stages of `applyDamage`, both handed `energy`. */
  method PartsOnwards(energy: int, parts: Health.PartsHPComponent?, draws: seq<Draw>, hp: Health.HPComponent?,
                      ghost view: PartsView, ghost health: int)
    returns (r: Result<bool>, ghost partsOut: Option<Result<int>>, ghost hullOut: Option<Result<int>>)
    requires parts != null ==> parts.Valid()
    requires view == ViewOf(parts)
    requires hp != null ==> health == hp.health
    modifies parts, hp
    modifies if parts != null then {parts.partHP} else {}
    ensures r == Ends(partsOut, Ends(hullOut, Ok(true)))
    ensures PartsDone(parts, view, true, energy, partsOut)
    ensures HullDone(hp, health, Passes(partsOut), energy, hullOut)
  {
    partsOut, hullOut := None, None;
    if parts != null {
      var left := ApplyPartHPDamage(parts, energy, draws);
      partsOut := Some(left);
      if left.Err? {
        return Err(left.error), partsOut, hullOut;
      }
      if left.value == 0 {
        return Ok(false), partsOut, hullOut;
      }
    }
    if hp != null {
      var left := ApplyHPDamage(hp, energy);
      hullOut := Some(Ok(left));
      if left == 0 {
        return Ok(false), partsOut, hullOut;
      }
    }
    return Ok(true), partsOut, hullOut;
  }
}
