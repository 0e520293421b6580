/**
 * Decimal text as the JVM writes and reads it: `Long.toString`, string
 * templates, `Long.parseLong`/`Integer.parseInt`, and the padded `%0Nd` and
 * `%Nd` conversions of `String.format`. Only ASCII digits are modelled.
 */
module Text {
  import opened Wrappers
  import JavaMath

  predicate IsDigit(c: char) { '0' <= c <= '9' }

  predicate AllDigits(s: string) { forall i :: 0 <= i < |s| ==> IsDigit(s[i]) }

  function DigitChar(d: nat): (c: char)
    requires d < 10
    ensures IsDigit(c) && c as int - '0' as int == d
  {
    (d + '0' as int) as char
  }

  function DigitValue(c: char): (d: nat)
    requires IsDigit(c)
    ensures d < 10 && DigitChar(d) == c
  {
    c as int - '0' as int
  }

  /** The decimal digits of `n`, with no leading zero except for `n == 0` itself. */
  function NatToString(n: nat): (s: string)
    ensures |s| >= 1 && AllDigits(s)
    ensures (s[0] == '0') == (n == 0)
    ensures n == 0 ==> s == "0"
  {
    if n < 10 then [DigitChar(n)] else NatToString(n / 10) + [DigitChar(n % 10)]
  }

  /** `Long.toString(x)`, also what a Kotlin template `"$x"` prints. */
  function IntToString(x: int): (s: string)
    ensures |s| >= 1
  {
    if x < 0 then "-" + NatToString(-x) else NatToString(x)
  }

  /** The value of a run of decimal digits, most significant first. */
  function DigitsValue(s: string): nat
    requires AllDigits(s)
  {
    if s == [] then 0 else DigitsValue(s[..|s| - 1]) * 10 + DigitValue(s[|s| - 1])
  }

  lemma {:induction false} NatToStringRoundTrip(n: nat)
    ensures DigitsValue(NatToString(n)) == n
  {
    if n >= 10 {
      var s := NatToString(n);
      assert s[..|s| - 1] == NatToString(n / 10);
      NatToStringRoundTrip(n / 10);
    }
  }

  /** The unsigned decimal number spelled by `s`, if `s` is one or more digits. */
  function ParseDigits(s: string): (r: Option<nat>)
    ensures r.Some? <==> (|s| > 0 && AllDigits(s))
  {
    if |s| > 0 && AllDigits(s) then Some(DigitsValue(s)) else None
  }

  /** An optional `-` or `+` sign, then one or more digits, value within [lo, hi]. */
  function ParseSigned(s: string, lo: int, hi: int): (r: Option<int>)
    ensures r.Some? ==> lo <= r.value <= hi
  {
    var neg := |s| > 0 && s[0] == '-';
    var digits := if |s| > 0 && (s[0] == '-' || s[0] == '+') then s[1..] else s;
    match ParseDigits(digits)
    case None => None
    case Some(m) =>
      var v: int := if neg then 0 - m as int else m;
      if lo <= v <= hi then Some(v) else None
  }

  /** `Long.parseLong`; `None` stands for `NumberFormatException`. */
  function ParseLong(s: string): (r: Option<int>)
    ensures r.Some? ==> JavaMath.IsLong(r.value)
    ensures r.Some? ==> |s| > 0
  {
    ParseSigned(s, JavaMath.LONG_MIN, JavaMath.LONG_MAX)
  }

  /** `Integer.parseInt`; `None` stands for `NumberFormatException`. */
  function ParseInt(s: string): (r: Option<int>)
    ensures r.Some? ==> JavaMath.IsInt(r.value)
    ensures r.Some? ==> |s| > 0
  {
    ParseSigned(s, JavaMath.INT_MIN, JavaMath.INT_MAX)
  }

  /** Printing a value and parsing it back gives the value. */
  lemma ParseSignedToString(x: int, lo: int, hi: int)
    requires lo <= x <= hi
    ensures ParseSigned(IntToString(x), lo, hi) == Some(x)
  {
    NatToStringRoundTrip(JavaMath.Abs(x));
    if x < 0 {
      assert IntToString(x)[1..] == NatToString(-x);
    }
  }

  lemma ParseLongToString(x: int)
    requires JavaMath.IsLong(x)
    ensures ParseLong(IntToString(x)) == Some(x)
  {
    ParseSignedToString(x, JavaMath.LONG_MIN, JavaMath.LONG_MAX);
  }

  /** `s` preceded by enough copies of `c` to reach `width` characters. */
  function PadLeft(s: string, width: int, c: char): (r: string)
    ensures |r| == JavaMath.Max(|s|, width)
    ensures r[|r| - |s|..] == s
    ensures forall i :: 0 <= i < |r| - |s| ==> r[i] == c
  {
    if |s| >= width then s else seq(width - |s|, _ => c) + s
  }

  /** `String.format("%0<width>d", x)`: zeros go between the sign and the digits. */
  function ZeroPadded(x: int, width: nat): string
  {
    if x < 0 then "-" + PadLeft(NatToString(-x), width - 1, '0')
    else PadLeft(NatToString(x), width, '0')
  }

  /** `String.format("%<width>d", x)`: spaces go before the sign. */
  function SpacePadded(x: int, width: nat): string
  {
    PadLeft(IntToString(x), width, ' ')
  }

  /** Leading zeros do not change the value of a digit string. */
  lemma {:induction false} DigitsValueLeadingZeros(s: string, k: nat)
    requires AllDigits(s)
    ensures AllDigits(PadLeft(s, k, '0'))
    ensures DigitsValue(PadLeft(s, k, '0')) == DigitsValue(s)
    decreases k - |s|
  {
    if |s| < k {
      DigitsValueZeroPrefix(s);
      DigitsValueLeadingZeros(['0'] + s, k);
      assert PadLeft(['0'] + s, k, '0') == PadLeft(s, k, '0');
    }
  }

  lemma {:induction false} DigitsValueZeroPrefix(s: string)
    requires AllDigits(s)
    ensures AllDigits(['0'] + s) && DigitsValue(['0'] + s) == DigitsValue(s)
    decreases |s|
  {
    if s != [] {
      var t := ['0'] + s;
      assert t[..|t| - 1] == ['0'] + s[..|s| - 1];
      DigitsValueZeroPrefix(s[..|s| - 1]);
    }
  }

  /** A non-negative number printed with `%0Nd` reads back as itself. */
  lemma ZeroPaddedRoundTrip(x: nat, width: nat)
    ensures ParseDigits(ZeroPadded(x, width)) == Some(x)
    ensures |ZeroPadded(x, width)| == JavaMath.Max(|NatToString(x)|, width)
  {
    NatToStringRoundTrip(x);
    DigitsValueLeadingZeros(NatToString(x), width);
  }

  /** `10^k`. */
  function Pow10(k: nat): (r: nat)
    ensures r >= 1
  {
    if k == 0 then 1 else 10 * Pow10(k - 1)
  }

  /** A number below `10^k` has at most `k` digits. */
  lemma {:induction false} NatToStringLength(n: nat, k: nat)
    requires k >= 1 && n < Pow10(k)
    ensures |NatToString(n)| <= k
  {
    if n >= 10 {
      NatToStringLength(n / 10, k - 1);
    }
  }

  /** A number below `10^width`, printed with `%0<width>d`, takes exactly `width` characters and reads back. */
  lemma FixedWidth(x: nat, width: nat)
    requires width >= 1 && x < Pow10(width)
    ensures |ZeroPadded(x, width)| == width
    ensures ParseDigits(ZeroPadded(x, width)) == Some(x)
  {
    NatToStringLength(x, width);
    ZeroPaddedRoundTrip(x, width);
  }

  /** `Long.toString` of a non-negative number reads back as digits. */
  lemma ParseDigitsToString(x: nat)
    ensures ParseDigits(IntToString(x)) == Some(x)
  {
    NatToStringRoundTrip(x);
  }
  /** `s.indexOf(c, from)`: the first position at or after `from` holding `c`, or -1. */
  function IndexOf(s: string, c: char, from: int): (r: int)
    ensures r == -1 || (JavaMath.Max(from, 0) <= r < |s| && s[r] == c)
    decreases |s| - from
  {
    if from < 0 then IndexOf(s, c, 0)
    else if from >= |s| then -1
    else if s[from] == c then from
    else IndexOf(s, c, from + 1)
  }

  /** `s.indexOf(c, i + 1)`: the next `c` after position `i`. */
  function IndexOfAfter(s: string, c: char, i: int): int
  {
    IndexOf(s, c, i + 1)
  }

  /** The printed form of a number holds no character other than a sign and digits. */
  lemma IntToStringChars(x: int)
    ensures forall i :: 0 <= i < |IntToString(x)| ==> IntToString(x)[i] == '-' || IsDigit(IntToString(x)[i])
  {
    if x < 0 {
      assert forall i :: 1 <= i < |IntToString(x)| ==> IntToString(x)[i] == NatToString(-x)[i - 1];
    }
  }
  /** When `c` does not occur in `p` from `from` on, the first `c` after `from` in `s == p + q` is `q`'s first character. */
  lemma {:induction false} IndexOfAfterPrefix(s: string, p: string, q: string, c: char, from: nat)
    requires s == p + q && from <= |p| && |q| > 0 && q[0] == c
    requires forall k :: from <= k < |p| ==> p[k] != c
    ensures IndexOf(s, c, from) == |p|
    decreases |p| - from
  {
    if from < |p| {
      IndexOfAfterPrefix(s, p, q, c, from + 1);
    }
  }

  /** `String.hashCode`: the 31-polynomial over the characters, as an `Int`. */
  function StringHash(s: string): (h: int)
    ensures JavaMath.IsInt(h)
  {
    if s == [] then 0 else JavaMath.Wrap32(31 * StringHash(s[..|s| - 1]) + s[|s| - 1] as int)
  }
}
