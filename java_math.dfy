/**
 * Integer semantics of the JVM: division and remainder truncate toward zero,
 * `Int` arithmetic wraps modulo 2^32 and `Long` arithmetic modulo 2^64.
 */
module JavaMath {
  const INT_MIN: int := -0x8000_0000
  const INT_MAX: int := 0x7FFF_FFFF
  const LONG_MIN: int := -0x8000_0000_0000_0000
  const LONG_MAX: int := 0x7FFF_FFFF_FFFF_FFFF

  predicate IsInt(x: int) { INT_MIN <= x <= INT_MAX }
  predicate IsLong(x: int) { LONG_MIN <= x <= LONG_MAX }

  function Abs(x: int): nat { if x < 0 then -x else x }
  function Min(a: int, b: int): int { if a <= b then a else b }
  function Max(a: int, b: int): int { if a >= b then a else b }
  function Signum(x: int): int { if x > 0 then 1 else if x < 0 then -1 else 0 }

  /** Java's `/` on integers: the quotient truncated toward zero. */
  function Div(a: int, b: int): int
    requires b != 0
  {
    var q := Abs(a) / Abs(b);
    if (a >= 0) == (b > 0) then q else -q
  }

  /** Java's `%` on integers: the remainder takes the sign of the dividend. */
  function Rem(a: int, b: int): int
    requires b != 0
  {
    a - b * Div(a, b)
  }

  lemma DivRemSpec(a: int, b: int)
    requires b != 0
    ensures Div(a, b) * b + Rem(a, b) == a
    ensures Abs(Rem(a, b)) < Abs(b)
    ensures a >= 0 ==> Rem(a, b) >= 0
    ensures a <= 0 ==> Rem(a, b) <= 0
    ensures Abs(Div(a, b)) * Abs(b) <= Abs(a)
  {
    RemMagnitude(a, b);
    DivMagnitude(a, b);
    EuclidFacts(Abs(a), Abs(b));
  }

  lemma EuclidFacts(A: nat, B: nat)
    requires B > 0
    ensures 0 <= A % B < B
    ensures (A / B) * B <= A
    ensures A / B >= 0
  {
  }

  lemma DivMagnitude(a: int, b: int)
    requires b != 0
    ensures Abs(Div(a, b)) == Abs(a) / Abs(b)
  {
    assert Abs(a) / Abs(b) >= 0;
  }

  lemma RemMagnitude(a: int, b: int)
    requires b != 0
    ensures Rem(a, b) == (if a >= 0 then Abs(a) % Abs(b) else -(Abs(a) % Abs(b)))
  {
    var A, B := Abs(a), Abs(b);
    var q := A / B;
    assert A == B * q + A % B;
    SignedProduct(a, b, q);
  }

  /** `b` times the truncated quotient is `|b| * (|a| / |b|)` with the sign of `a`. */
  lemma SignedProduct(a: int, b: int, q: int)
    requires b != 0 && q == Abs(a) / Abs(b)
    ensures b * Div(a, b) == if a >= 0 then Abs(b) * q else -(Abs(b) * q)
  {
    var B := Abs(b);
    if b > 0 {
      assert b == B;
      if a < 0 {
        assert b * -q == -(B * q);
      }
    } else {
      assert b == -B;
      if a >= 0 {
        assert b * -q == B * q;
      } else {
        assert b * q == -(B * q);
      }
    }
  }

  /** The quotient and remainder are the only ones with the remainder in [0, d). */
  lemma DivUnique(a: int, d: int, q: int, r: int)
    requires d > 0 && a == d * q + r && 0 <= r < d
    ensures a / d == q && a % d == r
  {
    var q', r' := a / d, a % d;
    var k := q - q';
    assert d * q == d * q' + d * k by { Distribute(d, q', k); }
    assert d * k == r' - r;
    if k >= 1 {
      MulAtLeast(d, k);
    } else if k <= -1 {
      MulAtLeast(d, -k);
    }
  }

  lemma Distribute(d: int, x: int, y: int)
    ensures d * (x + y) == d * x + d * y
  {
  }

  lemma OneFewer(n: int, v: int)
    ensures (n - 1) * v == n * v - v
  {
  }

  lemma MulMonotone(c: int, a: int, b: int)
    requires c >= 0 && a <= b
    ensures c * a <= c * b
  {
    Distribute(c, a, b - a);
  }

  lemma MulAtLeast(d: int, k: int)
    requires d > 0 && k >= 1
    ensures d * k >= d
  {
  }

  /** A quotient of a product by one of its factors is exact. */
  lemma DivExact(k: int, m: int)
    requires m != 0
    ensures Div(k * m, m) == k
  {
    assert Abs(k * m) == Abs(k) * Abs(m);
    DivUnique(Abs(k) * Abs(m), Abs(m), Abs(k), 0);
  }

  /** A quotient by a positive divisor lies between any two bounds the dividend lies between, scaled. */
  lemma DivBetween(n: int, m: int, lo: int, hi: int)
    requires m > 0 && lo * m <= n <= hi * m
    ensures lo <= Div(n, m) <= hi
  {
    var q, r := Div(n, m), Rem(n, m);
    assert q * m + r == n && -m < r < m by {
      DivRemSpec(n, m);
    }
    if q < lo {
      MulMonotone(m, q, lo - 1);
      Distribute(m, lo, -1);
    } else if q > hi {
      MulMonotone(m, hi + 1, q);
      Distribute(m, hi, 1);
    }
  }

  /** Division by a positive divisor is monotone on non-negative numbers. */
  lemma DivMonotone(a: int, b: int, d: int)
    requires 0 <= a <= b && d > 0
    ensures a / d <= b / d
  {
    EuclidFacts(a, d);
    EuclidFacts(b, d);
    if a / d > b / d {
      MulMonotone(d, b / d + 1, a / d);
      assert false;
    }
  }

  /** On non-negative operands Java and Dafny division agree. */
  lemma DivNonNegative(a: int, b: int)
    requires a >= 0 && b > 0
    ensures Div(a, b) == a / b && Rem(a, b) == a % b
  {
  }

  /** The low 32 bits of `x`, read as a signed `Int` (a JVM `int` overflow or `toInt()`). */
  function Wrap32(x: int): (r: int)
    ensures IsInt(r)
    ensures (r - x) % 0x1_0000_0000 == 0
  {
    var m := x % 0x1_0000_0000;
    if m >= 0x8000_0000 then m - 0x1_0000_0000 else m
  }

  /** The low 64 bits of `x`, read as a signed `Long`. */
  function Wrap64(x: int): (r: int)
    ensures IsLong(r)
  {
    var m := x % 0x1_0000_0000_0000_0000;
    if m >= 0x8000_0000_0000_0000 then m - 0x1_0000_0000_0000_0000 else m
  }

  lemma Wrap32Identity(x: int)
    requires IsInt(x)
    ensures Wrap32(x) == x
  {
    if x < 0 {
      assert x % 0x1_0000_0000 == x + 0x1_0000_0000;
    }
  }

  /** The wrapped value differs from the value by a multiple of 2^64. */
  lemma Wrap64Congruence(x: int)
    ensures (Wrap64(x) - x) % 0x1_0000_0000_0000_0000 == 0
  {
  }

  lemma Wrap64Identity(x: int)
    requires IsLong(x)
    ensures Wrap64(x) == x
  {
    if x < 0 {
      assert x % 0x1_0000_0000_0000_0000 == x + 0x1_0000_0000_0000_0000;
    }
  }

  /** Values that differ by a multiple of 2^64 wrap to the same `Long`. */
  lemma Wrap64Congruent(u: int, v: int)
    requires (u - v) % 0x1_0000_0000_0000_0000 == 0
    ensures Wrap64(u) == Wrap64(v)
  {
    var M := 0x1_0000_0000_0000_0000;
    var k := (u - v) / M;
    assert u - v == M * k;
    Distribute(M, v / M, k);
    DivUnique(u, M, v / M + k, v % M);
  }

  lemma MultipleNegated(z: int)
    requires z % 0x1_0000_0000_0000_0000 == 0
    ensures (-z) % 0x1_0000_0000_0000_0000 == 0
  {
    var M := 0x1_0000_0000_0000_0000;
    var k := z / M;
    assert z == M * k;
    assert -z == M * (-k);
    DivUnique(-z, M, -k, 0);
  }

  /** Wrapping an operand first does not change a wrapped sum. */
  lemma Wrap64Sum(u: int, v: int)
    ensures Wrap64(Wrap64(u) + v) == Wrap64(u + v)
  {
    Wrap64Congruence(u);
    assert (Wrap64(u) + v) - (u + v) == Wrap64(u) - u;
    Wrap64Congruent(Wrap64(u) + v, u + v);
  }

  /** Wrapping before a negation does not change the wrapped result. */
  lemma Wrap64Negated(u: int)
    ensures Wrap64(-Wrap64(u)) == Wrap64(-u)
  {
    Wrap64Congruence(u);
    MultipleNegated(Wrap64(u) - u);
    assert -(Wrap64(u) - u) == -Wrap64(u) - (-u);
    Wrap64Congruent(-Wrap64(u), -u);
  }

  /** Negating a `Long` twice gives it back, `Long.MIN_VALUE` included. */
  lemma Wrap64NegateTwice(x: int)
    requires IsLong(x)
    ensures Wrap64(-Wrap64(-x)) == x
  {
    Wrap64Negated(-x);
    Wrap64Identity(x);
  }

  /** Values that differ by a multiple of 2^32 wrap to the same `Int`. */
  lemma Wrap32Congruent(u: int, v: int)
    requires (u - v) % 0x1_0000_0000 == 0
    ensures Wrap32(u) == Wrap32(v)
  {
    var M := 0x1_0000_0000;
    var k := (u - v) / M;
    assert u - v == M * k;
    Distribute(M, v / M, k);
    DivUnique(u, M, v / M + k, v % M);
  }

  /** Wrapping an operand first does not change a wrapped `Int` sum. */
  lemma Wrap32Sum(u: int, v: int)
    ensures Wrap32(Wrap32(u) + v) == Wrap32(u + v)
  {
    assert (Wrap32(u) + v) - (u + v) == Wrap32(u) - u;
    Wrap32Congruent(Wrap32(u) + v, u + v);
  }

  /** The low 16 bits of `x`, read as a signed `Short` (`toShort()`). */
  function Wrap16(x: int): (r: int)
    ensures -0x8000 <= r < 0x8000
  {
    var m := x % 0x1_0000;
    if m >= 0x8000 then m - 0x1_0000 else m
  }

  /** Kotlin's `xor` and `shr` on a `Long` value, on its 64-bit two's complement pattern. */
  function LongXorShr32(u: int): (r: int)
    requires IsLong(u)
    ensures IsLong(r)
  {
    var bits := (if u < 0 then u + 0x1_0000_0000_0000_0000 else u) as bv64;
    // arithmetic shift right by 32 keeps the sign bit
    var shifted := if u < 0 then (bits >> 32) | 0xFFFF_FFFF_0000_0000 else bits >> 32;
    var x := (bits ^ shifted) as int;
    if x >= 0x8000_0000_0000_0000 then x - 0x1_0000_0000_0000_0000 else x
  }

}
