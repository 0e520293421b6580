/**
 * `Vector2L`: a mutable 2D vector with `Long` coordinates (positions in
 * metres, velocities in metres per second). The in-place operations wrap as
 * JVM `Long` arithmetic does; `dot`, `crs` and `lerp` go through an
 * arbitrary-precision integer and are exact. The value a vector holds is a
 * `Vec`; the class mutates it, and every method is stated by the function
 * on `Vec` it applies.
 */
module LongVectors {
  import opened Wrappers
  import JavaMath
  import Text

  datatype Vec = Vec(x: int, y: int)

  predicate IsLongVec(v: Vec) { JavaMath.IsLong(v.x) && JavaMath.IsLong(v.y) }

  /** `add`: the componentwise sum, wrapping. */
  function Plus(a: Vec, b: Vec): (r: Vec)
    ensures IsLongVec(r)
  {
    Vec(JavaMath.Wrap64(a.x + b.x), JavaMath.Wrap64(a.y + b.y))
  }

  /** `sub`: the componentwise difference, wrapping. */
  function Minus(a: Vec, b: Vec): (r: Vec)
    ensures IsLongVec(r)
  {
    Vec(JavaMath.Wrap64(a.x - b.x), JavaMath.Wrap64(a.y - b.y))
  }

  /** `scl(Vector2L)` and `scl(long, long)`: the componentwise product, wrapping. */
  function Times(a: Vec, b: Vec): (r: Vec)
    ensures IsLongVec(r)
  {
    Vec(JavaMath.Wrap64(a.x * b.x), JavaMath.Wrap64(a.y * b.y))
  }

  /** `scl(long)`: both coordinates times the same scalar. */
  function Scaled(a: Vec, s: int): (r: Vec)
    ensures r == Times(a, Vec(s, s))
  {
    Vec(JavaMath.Wrap64(a.x * s), JavaMath.Wrap64(a.y * s))
  }

  /** `div(long)`: both coordinates divided by `d`, truncating; only `Long.MIN_VALUE / -1` wraps. */
  function Quotient(a: Vec, d: int): (r: Vec)
    requires d != 0
    ensures IsLongVec(r)
  {
    Vec(JavaMath.Wrap64(JavaMath.Div(a.x, d)), JavaMath.Wrap64(JavaMath.Div(a.y, d)))
  }

  /** Adding a vector and subtracting it again gives back the start, overflow or not. */
  lemma PlusMinusInverse(a: Vec, b: Vec)
    requires IsLongVec(a)
    ensures Minus(Plus(a, b), b) == a
    ensures Plus(Minus(a, b), b) == a
  {
    JavaMath.Wrap64Sum(a.x + b.x, -b.x);
    JavaMath.Wrap64Sum(a.y + b.y, -b.y);
    JavaMath.Wrap64Sum(a.x - b.x, b.x);
    JavaMath.Wrap64Sum(a.y - b.y, b.y);
    JavaMath.Wrap64Identity(a.x);
    JavaMath.Wrap64Identity(a.y);
  }

  lemma DivFits(n: int, d: int)
    requires JavaMath.IsLong(n) && d != 0 && !(n == JavaMath.LONG_MIN && d == -1)
    ensures JavaMath.IsLong(JavaMath.Div(n, d))
    ensures JavaMath.Abs(JavaMath.Div(n, d)) * JavaMath.Abs(d) <= JavaMath.Abs(n)
  {
    JavaMath.DivRemSpec(n, d);
    var q := JavaMath.Div(n, d);
    if JavaMath.Abs(d) >= 2 {
      JavaMath.MulMonotone(JavaMath.Abs(q), 2, JavaMath.Abs(d));
    }
  }

  /**
   * The quotient is Java's truncating division, never larger in size than the
   * dividend, except that `Long.MIN_VALUE / -1` overflows back to itself.
   */
  lemma QuotientTruncates(a: Vec, d: int)
    requires IsLongVec(a) && d != 0
    ensures a.x != JavaMath.LONG_MIN || d != -1 ==>
      Quotient(a, d).x == JavaMath.Div(a.x, d) && JavaMath.Abs(Quotient(a, d).x) * JavaMath.Abs(d) <= JavaMath.Abs(a.x)
    ensures a.y != JavaMath.LONG_MIN || d != -1 ==>
      Quotient(a, d).y == JavaMath.Div(a.y, d) && JavaMath.Abs(Quotient(a, d).y) * JavaMath.Abs(d) <= JavaMath.Abs(a.y)
    ensures a.x == JavaMath.LONG_MIN && d == -1 ==> Quotient(a, d).x == JavaMath.LONG_MIN
  {
    if a.x != JavaMath.LONG_MIN || d != -1 {
      DivFits(a.x, d);
      JavaMath.Wrap64Identity(JavaMath.Div(a.x, d));
    }
    if a.y != JavaMath.LONG_MIN || d != -1 {
      DivFits(a.y, d);
      JavaMath.Wrap64Identity(JavaMath.Div(a.y, d));
    }
  }

  /** `dot`, exact: x1*x2 + y1*y2. */
  function Dot(a: Vec, b: Vec): int
  {
    a.x * b.x + a.y * b.y
  }

  /** `crs`, exact: x*oy - y*ox. */
  function Crs(a: Vec, b: Vec): int
  {
    a.x * b.y - a.y * b.x
  }

  /** The dot product is symmetric, the cross product antisymmetric and zero for a vector with itself. */
  lemma DotCrsSymmetry(a: Vec, b: Vec)
    ensures Dot(a, b) == Dot(b, a)
    ensures Crs(a, b) == -Crs(b, a)
    ensures Crs(a, a) == 0
    ensures Dot(a, a) >= 0
  {
  }

  /** `rotate90(dir)`: a quarter turn, counter-clockwise for `dir >= 0`, clockwise otherwise. */
  function Rotated(a: Vec, dir: int): (r: Vec)
    ensures IsLongVec(a) ==> IsLongVec(r)
  {
    if dir >= 0 then Vec(JavaMath.Wrap64(-a.y), a.x) else Vec(a.y, JavaMath.Wrap64(-a.x))
  }

  /** A turn one way undoes a turn the other way, and four turns the same way are the identity, even at `Long.MIN_VALUE`. */
  lemma RotatedInverse(a: Vec, dir: int)
    requires IsLongVec(a)
    ensures Rotated(Rotated(a, 1), -1) == a && Rotated(Rotated(a, -1), 1) == a
    ensures Rotated(Rotated(Rotated(Rotated(a, dir), dir), dir), dir) == a
  {
    var r2 := Rotated(Rotated(a, dir), dir);
    RotatedTwice(a, dir);
    RotatedTwice(r2, dir);
    NegatedTwice(a);
    RotatedBack(a);
  }

  /** Two turns the same way negate both coordinates. */
  lemma RotatedTwice(a: Vec, dir: int)
    ensures Rotated(Rotated(a, dir), dir) == Vec(JavaMath.Wrap64(-a.x), JavaMath.Wrap64(-a.y))
  {
  }

  /** A turn each way, in either order, is the identity. */
  lemma RotatedBack(a: Vec)
    requires IsLongVec(a)
    ensures Rotated(Rotated(a, 1), -1) == a && Rotated(Rotated(a, -1), 1) == a
  {
    NegatedTwice(a);
  }

  /** Negating a coordinate twice, with `Long` wrap-around, gives it back. */
  lemma NegatedTwice(a: Vec)
    requires IsLongVec(a)
    ensures JavaMath.Wrap64(-JavaMath.Wrap64(-a.x)) == a.x && JavaMath.Wrap64(-JavaMath.Wrap64(-a.y)) == a.y
  {
    JavaMath.Wrap64NegateTwice(a.x);
    JavaMath.Wrap64NegateTwice(a.y);
  }


  /** Away from `Long.MIN_VALUE`, the rotated vector is perpendicular, of the same length, and turns positively for `dir >= 0`. */
  lemma RotatedPerpendicular(a: Vec, dir: int)
    requires IsLongVec(a) && a.x != JavaMath.LONG_MIN && a.y != JavaMath.LONG_MIN
    ensures Dot(a, Rotated(a, dir)) == 0
    ensures Dot(Rotated(a, dir), Rotated(a, dir)) == Dot(a, a)
    ensures Crs(a, Rotated(a, dir)) == if dir >= 0 then Dot(a, a) else -Dot(a, a)
  {
    JavaMath.Wrap64Identity(-a.x);
    JavaMath.Wrap64Identity(-a.y);
  }

  /**
   * `lerp(target, current, max)`: each coordinate is
   * `(x*(max - current) + target.x*current) / max`, computed exactly and
   * truncated, then cut to a `Long`; `max - current` is a `Long` subtraction.
   * A zero `max` is a division by zero.
   */
  function Lerped(a: Vec, t: Vec, current: int, max: int): (r: Result<Vec>)
    ensures r.Err? <==> max == 0
    ensures r.Ok? ==> IsLongVec(r.value)
  {
    if max == 0 then Err(Arithmetic)
    else
      var inv := JavaMath.Wrap64(max - current);
      Ok(Vec(JavaMath.Wrap64(JavaMath.Div(a.x * inv + t.x * current, max)),
             JavaMath.Wrap64(JavaMath.Div(a.y * inv + t.y * current, max))))
  }

  /** One coordinate of a lerp with `0 <= current <= max` lies between the two endpoints. */
  lemma LerpCoordinate(p: int, q: int, current: int, max: int)
    requires JavaMath.IsLong(p) && JavaMath.IsLong(q) && JavaMath.IsLong(max) && 0 <= current <= max && max > 0
    ensures var v := JavaMath.Wrap64(JavaMath.Div(p * JavaMath.Wrap64(max - current) + q * current, max));
      JavaMath.Min(p, q) <= v <= JavaMath.Max(p, q)
      && (current == 0 ==> v == p) && (current == max ==> v == q)
  {
    JavaMath.Wrap64Identity(max - current);
    var n := p * (max - current) + q * current;
    var lo, hi := JavaMath.Min(p, q), JavaMath.Max(p, q);
    JavaMath.MulMonotone(max - current, lo, p);
    JavaMath.MulMonotone(current, lo, q);
    JavaMath.MulMonotone(max - current, p, hi);
    JavaMath.MulMonotone(current, q, hi);
    JavaMath.Distribute(lo, max - current, current);
    JavaMath.Distribute(hi, max - current, current);
    JavaMath.DivBetween(n, max, lo, hi);
    JavaMath.Wrap64Identity(JavaMath.Div(n, max));
    if current == 0 {
      JavaMath.DivExact(p, max);
    }
    if current == max {
      JavaMath.DivExact(q, max);
    }
  }

  /** Lerping from 0 to `max` starts at the vector, ends at the target and stays in the box between them. */
  lemma LerpBetween(a: Vec, t: Vec, current: int, max: int)
    requires IsLongVec(a) && IsLongVec(t) && JavaMath.IsLong(max) && 0 <= current <= max && max > 0
    ensures Lerped(a, t, current, max).Ok?
    ensures var v := Lerped(a, t, current, max).value;
      JavaMath.Min(a.x, t.x) <= v.x <= JavaMath.Max(a.x, t.x)
      && JavaMath.Min(a.y, t.y) <= v.y <= JavaMath.Max(a.y, t.y)
    ensures Lerped(a, t, 0, max) == Ok(a) && Lerped(a, t, max, max) == Ok(t)
  {
    LerpCoordinate(a.x, t.x, current, max);
    LerpCoordinate(a.y, t.y, current, max);
    LerpCoordinate(a.x, t.x, 0, max);
    LerpCoordinate(a.y, t.y, 0, max);
    LerpCoordinate(a.x, t.x, max, max);
    LerpCoordinate(a.y, t.y, max, max);
  }

  /** `FastMath.abs` on a `Long`: `Long.MIN_VALUE` stays negative. */
  function AbsLong(v: int): int
  {
    if v < 0 then JavaMath.Wrap64(-v) else v
  }

  /** The `Long` formula of `dstAprox` on the two coordinate distances. */
  function Approx(dx: int, dy: int): int
  {
    if dx < dy then ApproxOrdered(dx, dy) else ApproxOrdered(dy, dx)
  }

  /** The formula once the smaller distance `lo` and the larger `hi` are known. */
  function ApproxOrdered(lo: int, hi: int): int
  {
    var approx := JavaMath.Wrap64(JavaMath.Wrap64(1007 * hi) + JavaMath.Wrap64(441 * lo));
    var approx' := if hi < JavaMath.Wrap64(16 * lo) then JavaMath.Wrap64(approx - JavaMath.Wrap64(40 * hi)) else approx;
    JavaMath.Wrap64(approx' + 512) / 1024
  }

  /** `dstAprox(v)`: an integer estimate of the distance, within a few percent. */
  function DstAprox(a: Vec, b: Vec): int
  {
    Approx(AbsLong(JavaMath.Wrap64(b.x - a.x)), AbsLong(JavaMath.Wrap64(b.y - a.y)))
  }

  lemma AbsLongNegated(w: int)
    requires JavaMath.IsLong(w)
    ensures AbsLong(JavaMath.Wrap64(-w)) == AbsLong(w)
  {
    if w != JavaMath.LONG_MIN {
      JavaMath.Wrap64Identity(-w);
    }
    JavaMath.Wrap64Identity(w);
  }

  /** The estimate does not depend on the order of the two points, overflow included. */
  lemma DstAproxSymmetric(a: Vec, b: Vec)
    ensures DstAprox(a, b) == DstAprox(b, a)
  {
    JavaMath.Wrap64Negated(a.x - b.x);
    JavaMath.Wrap64Negated(a.y - b.y);
    AbsLongNegated(JavaMath.Wrap64(a.x - b.x));
    AbsLongNegated(JavaMath.Wrap64(a.y - b.y));
  }

  /** Without overflow, the `Long` formula is the integer formula it was written as. */
  lemma ApproxExact(dx: int, dy: int)
    requires 0 <= dx <= 0x10_0000_0000_0000 && 0 <= dy <= 0x10_0000_0000_0000
    ensures var lo, hi := JavaMath.Min(dx, dy), JavaMath.Max(dx, dy);
      var a := 1007 * hi + 441 * lo - (if hi < 16 * lo then 40 * hi else 0);
      Approx(dx, dy) == (a + 512) / 1024
  {
    if dx < dy {
      ApproxOrderedExact(dx, dy);
    } else {
      ApproxOrderedExact(dy, dx);
    }
  }

  lemma ApproxOrderedExact(lo: int, hi: int)
    requires 0 <= lo <= 0x10_0000_0000_0000 && 0 <= hi <= 0x10_0000_0000_0000
    ensures ApproxOrdered(lo, hi) == (1007 * hi + 441 * lo - (if hi < 16 * lo then 40 * hi else 0) + 512) / 1024
  {
    var sum := ApproxSumExact(lo, hi);
    if hi < 16 * lo {
      ApproxCorrectionExact(sum, hi);
    } else {
      JavaMath.Wrap64Identity(sum + 512);
    }
  }

  /** The first two products of `dstAprox`, their sum and `16*lo` do not overflow for distances up to 2^52. */
  lemma ApproxSumExact(lo: int, hi: int) returns (sum: int)
    requires 0 <= lo <= 0x10_0000_0000_0000 && 0 <= hi <= 0x10_0000_0000_0000
    ensures sum == 1007 * hi + 441 * lo
    ensures JavaMath.Wrap64(JavaMath.Wrap64(1007 * hi) + JavaMath.Wrap64(441 * lo)) == sum
    ensures JavaMath.Wrap64(16 * lo) == 16 * lo
  {
    sum := 1007 * hi + 441 * lo;
    JavaMath.Wrap64Identity(1007 * hi);
    JavaMath.Wrap64Identity(441 * lo);
    JavaMath.Wrap64Identity(sum);
    JavaMath.Wrap64Identity(16 * lo);
  }

  /** Taking off `40*hi` and adding the rounding 512 do not overflow either. */
  lemma ApproxCorrectionExact(sum: int, hi: int)
    requires 0 <= hi <= 0x10_0000_0000_0000 && 0 <= sum <= 1448 * 0x10_0000_0000_0000
    ensures JavaMath.Wrap64(sum - JavaMath.Wrap64(40 * hi)) == sum - 40 * hi
    ensures JavaMath.Wrap64(sum - 40 * hi + 512) == sum - 40 * hi + 512
  {
    JavaMath.Wrap64Identity(40 * hi);
    JavaMath.Wrap64Identity(sum - 40 * hi);
    JavaMath.Wrap64Identity(sum - 40 * hi + 512);
  }

  /** The estimate times 1024 lies between `967*M - 512` and `1448*M + 512`, `M` the larger distance. */
  lemma ApproxBounds(dx: int, dy: int)
    requires 0 <= dx <= 0x10_0000_0000_0000 && 0 <= dy <= 0x10_0000_0000_0000
    ensures var M := JavaMath.Max(dx, dy);
      967 * M < 1024 * Approx(dx, dy) + 512 && 1024 * Approx(dx, dy) <= 1448 * M + 512
  {
    ApproxExact(dx, dy);
    var lo, hi := JavaMath.Min(dx, dy), JavaMath.Max(dx, dy);
    var a := 1007 * hi + 441 * lo - (if hi < 16 * lo then 40 * hi else 0);
    assert 967 * hi <= a <= 1448 * hi;
    var r := (a + 512) / 1024;
    JavaMath.EuclidFacts(a + 512, 1024);
    assert 1024 * r <= a + 512 < 1024 * r + 1024;
  }

  /**
   * For coordinate distances up to 2^52 nothing overflows: with `M` the larger
   * distance, the estimate times 1024 lies between `967*M - 512` and
   * `1448*M + 512`, and it is exactly 0 for one point.
   */
  lemma DstAproxBounds(a: Vec, b: Vec)
    requires IsLongVec(a) && IsLongVec(b)
    requires JavaMath.Abs(b.x - a.x) <= 0x10_0000_0000_0000 && JavaMath.Abs(b.y - a.y) <= 0x10_0000_0000_0000
    ensures var M := JavaMath.Max(JavaMath.Abs(b.x - a.x), JavaMath.Abs(b.y - a.y));
      var r := DstAprox(a, b);
      967 * M < 1024 * r + 512 && 1024 * r <= 1448 * M + 512
    ensures DstAprox(a, a) == 0
  {
    var dx, dy := JavaMath.Abs(b.x - a.x), JavaMath.Abs(b.y - a.y);
    JavaMath.Wrap64Identity(b.x - a.x);
    JavaMath.Wrap64Identity(b.y - a.y);
    JavaMath.Wrap64Identity(dx);
    JavaMath.Wrap64Identity(dy);
    assert AbsLong(JavaMath.Wrap64(b.x - a.x)) == dx;
    assert AbsLong(JavaMath.Wrap64(b.y - a.y)) == dy;
    ApproxBounds(dx, dy);
    assert JavaMath.Wrap64(0) == 0;
    ApproxExact(0, 0);
  }

  /** `toString()`: `(x,y)`. */
  function Format(v: Vec): string
  {
    "(" + Text.IntToString(v.x) + "," + Text.IntToString(v.y) + ")"
  }

  /**
   * `fromString(s)`: the first comma from position 1 on splits the text; it
   * must start with `(`, end with `)`, and both parts must be `Long`s, or it is
   * a `GdxRuntimeException`.
   */
  function Parse(s: string): (r: Result<Vec>)
    ensures r.Ok? ==> IsLongVec(r.value) && |s| >= 5 && s[0] == '(' && s[|s| - 1] == ')'
  {
    var i := Text.IndexOf(s, ',', 1);
    if i != -1 && s[0] == '(' && s[|s| - 1] == ')' then
      match (Text.ParseLong(s[1..i]), Text.ParseLong(s[i + 1..|s| - 1]))
      case (Some(x), Some(y)) => Ok(Vec(x, y))
      case _ => Err(Runtime("Malformed Vector2L: " + s))
    else Err(Runtime("Malformed Vector2L: " + s))
  }

  /** Reading back the printed form gives the vector. */
  lemma ParseFormat(v: Vec)
    requires IsLongVec(v)
    ensures Parse(Format(v)) == Ok(v)
  {
    var sx, sy := Text.IntToString(v.x), Text.IntToString(v.y);
    var s := Format(v);
    Text.IntToStringChars(v.x);
    assert s == ("(" + sx) + ("," + sy + ")");
    Text.IndexOfAfterPrefix(s, "(" + sx, "," + sy + ")", ',', 1);
    assert s[1..1 + |sx|] == sx;
    assert s[2 + |sx|..|s| - 1] == sy;
    Text.ParseLongToString(v.x);
    Text.ParseLongToString(v.y);
  }

  class Vector2L {
    var x: int
    var y: int

    function Value(): Vec
      reads this
    {
      Vec(x, y)
    }

    constructor (x: int, y: int)
      ensures Value() == Vec(x, y)
    {
      this.x := x;
      this.y := y;
    }

    /** `set(v)`. */
    method Set(v: Vector2L)
      modifies this
      ensures Value() == old(v.Value())
    {
      x, y := v.x, v.y;
    }

    /** `set(x, y)`. */
    method SetXY(x: int, y: int)
      modifies this
      ensures Value() == Vec(x, y)
    {
      this.x, this.y := x, y;
    }

    /** `add(v)`; `v` may be this vector itself. */
    method Add(v: Vector2L)
      modifies this
      ensures Value() == Plus(old(Value()), old(v.Value()))
    {
      var vx, vy := v.x, v.y;
      x := JavaMath.Wrap64(x + vx);
      y := JavaMath.Wrap64(y + vy);
    }

    /** `add(x, y)`. */
    method AddXY(dx: int, dy: int)
      modifies this
      ensures Value() == Plus(old(Value()), Vec(dx, dy))
    {
      x := JavaMath.Wrap64(x + dx);
      y := JavaMath.Wrap64(y + dy);
    }

    /** `sub(v)`. */
    method Sub(v: Vector2L)
      modifies this
      ensures Value() == Minus(old(Value()), old(v.Value()))
    {
      var vx, vy := v.x, v.y;
      x := JavaMath.Wrap64(x - vx);
      y := JavaMath.Wrap64(y - vy);
    }

    /** `sub(x, y)`. */
    method SubXY(dx: int, dy: int)
      modifies this
      ensures Value() == Minus(old(Value()), Vec(dx, dy))
    {
      x := JavaMath.Wrap64(x - dx);
      y := JavaMath.Wrap64(y - dy);
    }

    /** `addDiv(v, divisor)`: adds `v / divisor`; a zero divisor throws before anything changes. */
    method AddDiv(v: Vector2L, divisor: int) returns (o: Outcome)
      modifies this
      ensures divisor == 0 ==> o == Fail(Arithmetic) && Value() == old(Value())
      ensures divisor != 0 ==> o == Pass && Value() == Plus(old(Value()), Quotient(old(v.Value()), divisor))
    {
      if divisor == 0 {
        return Fail(Arithmetic);
      }
      var vx, vy := v.x, v.y;
      x := JavaMath.Wrap64(x + JavaMath.Wrap64(JavaMath.Div(vx, divisor)));
      y := JavaMath.Wrap64(y + JavaMath.Wrap64(JavaMath.Div(vy, divisor)));
      return Pass;
    }

    /** `addDiv(x, y, divisor)`. */
    method AddDivXY(dx: int, dy: int, divisor: int) returns (o: Outcome)
      modifies this
      ensures divisor == 0 ==> o == Fail(Arithmetic) && Value() == old(Value())
      ensures divisor != 0 ==> o == Pass && Value() == Plus(old(Value()), Quotient(Vec(dx, dy), divisor))
    {
      if divisor == 0 {
        return Fail(Arithmetic);
      }
      x := JavaMath.Wrap64(x + JavaMath.Wrap64(JavaMath.Div(dx, divisor)));
      y := JavaMath.Wrap64(y + JavaMath.Wrap64(JavaMath.Div(dy, divisor)));
      return Pass;
    }

    /** `subDiv(v, divisor)`. */
    method SubDiv(v: Vector2L, divisor: int) returns (o: Outcome)
      modifies this
      ensures divisor == 0 ==> o == Fail(Arithmetic) && Value() == old(Value())
      ensures divisor != 0 ==> o == Pass && Value() == Minus(old(Value()), Quotient(old(v.Value()), divisor))
    {
      if divisor == 0 {
        return Fail(Arithmetic);
      }
      var vx, vy := v.x, v.y;
      x := JavaMath.Wrap64(x - JavaMath.Wrap64(JavaMath.Div(vx, divisor)));
      y := JavaMath.Wrap64(y - JavaMath.Wrap64(JavaMath.Div(vy, divisor)));
      return Pass;
    }

    /** `subDiv(x, y, divisor)`. */
    method SubDivXY(dx: int, dy: int, divisor: int) returns (o: Outcome)
      modifies this
      ensures divisor == 0 ==> o == Fail(Arithmetic) && Value() == old(Value())
      ensures divisor != 0 ==> o == Pass && Value() == Minus(old(Value()), Quotient(Vec(dx, dy), divisor))
    {
      if divisor == 0 {
        return Fail(Arithmetic);
      }
      x := JavaMath.Wrap64(x - JavaMath.Wrap64(JavaMath.Div(dx, divisor)));
      y := JavaMath.Wrap64(y - JavaMath.Wrap64(JavaMath.Div(dy, divisor)));
      return Pass;
    }

    /** `scl(long)`. */
    method Scl(scalar: int)
      modifies this
      ensures Value() == Scaled(old(Value()), scalar)
    {
      x := JavaMath.Wrap64(x * scalar);
      y := JavaMath.Wrap64(y * scalar);
    }

    /** `scl(x, y)` and `scl(v)`: componentwise. */
    method SclXY(sx: int, sy: int)
      modifies this
      ensures Value() == Times(old(Value()), Vec(sx, sy))
    {
      x := JavaMath.Wrap64(x * sx);
      y := JavaMath.Wrap64(y * sy);
    }

    /** `div(long)`: a zero divider throws before anything changes. */
    method Div(divider: int) returns (o: Outcome)
      modifies this
      ensures divider == 0 ==> o == Fail(Arithmetic) && Value() == old(Value())
      ensures divider != 0 ==> o == Pass && Value() == Quotient(old(Value()), divider)
    {
      if divider == 0 {
        return Fail(Arithmetic);
      }
      x := JavaMath.Wrap64(JavaMath.Div(x, divider));
      y := JavaMath.Wrap64(JavaMath.Div(y, divider));
      return Pass;
    }

    /** `mulAdd(vec, scalar)`: adds `vec * scalar`, the product wrapping first. */
    method MulAdd(vec: Vector2L, scalar: int)
      modifies this
      ensures Value() == Plus(old(Value()), Scaled(old(vec.Value()), scalar))
    {
      var vx, vy := vec.x, vec.y;
      x := JavaMath.Wrap64(x + JavaMath.Wrap64(vx * scalar));
      y := JavaMath.Wrap64(y + JavaMath.Wrap64(vy * scalar));
    }

    /** `mulAdd(vec, mulVec)`. */
    method MulAddVec(vec: Vector2L, mulVec: Vector2L)
      modifies this
      ensures Value() == Plus(old(Value()), Times(old(vec.Value()), old(mulVec.Value())))
    {
      var vx, vy, mx, my := vec.x, vec.y, mulVec.x, mulVec.y;
      x := JavaMath.Wrap64(x + JavaMath.Wrap64(vx * mx));
      y := JavaMath.Wrap64(y + JavaMath.Wrap64(vy * my));
    }

    /** `rotate90(dir)`. */
    method Rotate90(dir: int)
      modifies this
      ensures Value() == Rotated(old(Value()), dir)
    {
      var oldX := x;
      if dir >= 0 {
        x := JavaMath.Wrap64(-y);
        y := oldX;
      } else {
        x := y;
        y := JavaMath.Wrap64(-oldX);
      }
    }

    /** `lerp(target, current, max)`; a zero `max` throws before anything changes. */
    method Lerp(target: Vector2L, current: int, max: int) returns (o: Outcome)
      modifies this
      ensures Lerped(old(Value()), old(target.Value()), current, max).Err? ==>
        o == Fail(Arithmetic) && Value() == old(Value())
      ensures Lerped(old(Value()), old(target.Value()), current, max).Ok? ==>
        o == Pass && Value() == Lerped(old(Value()), old(target.Value()), current, max).value
    {
      if max == 0 {
        return Fail(Arithmetic);
      }
      var inv := JavaMath.Wrap64(max - current);
      var tx, ty := target.x, target.y;
      var nx := JavaMath.Wrap64(JavaMath.Div(x * inv + tx * current, max));
      var ny := JavaMath.Wrap64(JavaMath.Div(y * inv + ty * current, max));
      x, y := nx, ny;
      return Pass;
    }

    predicate IsZero()
      reads this
    {
      x == 0 && y == 0
    }

    /** `setZero()`. */
    method SetZero()
      modifies this
      ensures IsZero() && Value() == Vec(0, 0)
    {
      x, y := 0, 0;
    }

    /** `equals(obj)` on another `Vector2L`: the same object, or the same coordinates. */
    predicate Equals(other: Vector2L)
      reads this, other
    {
      this == other || (x == other.x && y == other.y)
    }

    function ToString(): string
      reads this
    {
      Format(Value())
    }

    /** `fromString(s)`: sets both coordinates, or throws and leaves the vector as it was. */
    method FromString(s: string) returns (o: Outcome)
      modifies this
      ensures Parse(s).Ok? ==> o == Pass && Value() == Parse(s).value
      ensures Parse(s).Err? ==> o == Fail(Parse(s).error) && Value() == old(Value())
    {
      match Parse(s)
      case Ok(v) =>
        x, y := v.x, v.y;
        return Pass;
      case Err(e) =>
        return Fail(e);
    }
  }

  /** Two vectors are `equals` exactly when they hold the same value. */
  lemma EqualsIsValue(a: Vector2L, b: Vector2L)
    ensures a.Equals(b) <==> a.Value() == b.Value()
  {
  }

  /** Printing a vector and reading it into another makes the two `equals`. */
  method CopyThroughString(a: Vector2L, b: Vector2L) returns (o: Outcome)
    requires IsLongVec(a.Value()) && a != b
    modifies b
    ensures o == Pass && b.Equals(a) && a.Value() == old(a.Value())
  {
    ParseFormat(a.Value());
    o := b.FromString(a.ToString());
  }
}
