/**
 * `Units`: the game's unit constants and the text formatters for times,
 * dates and metric quantities. Each formatter is `String.format` over
 * integer division and remainder, written out here with `Text`'s padded
 * conversions; `/` and `%` on possibly negative operands are Java's.
 */
module Units {
  import opened Wrappers
  import JavaMath
  import Text

  const NANO_MICRO: int := 1000
  const NANO_MILLI: int := 1000 * NANO_MICRO
  const NANO_SECOND: int := 1000 * NANO_MILLI

  const KILO: int := 1000
  const MEGA: int := 1000 * KILO
  const GIGA: int := 1000 * MEGA
  const TERA: int := 1000 * GIGA

  const CUBIC_DECIMETRE: int := 1000
  const CUBIC_METRE: int := 1000 * CUBIC_DECIMETRE

  /** "W.F<suffix>": a whole part, a point and a `%0<width>d` fraction. */
  function Decimal(whole: int, frac: int, width: nat, suffix: string): string
  {
    Text.IntToString(whole) + "." + Text.ZeroPadded(frac, width) + suffix
  }

  /**
   * Reads "W.F<suffix>" back: the digits before the point and exactly
   * `width` digits after it.
   */
  function ReadDecimal(s: string, width: nat, suffix: string): Option<(nat, nat)>
  {
    var n := |s|;
    if n < |suffix| + width + 2 || s[n - |suffix|..] != suffix || s[n - |suffix| - width - 1] != '.' then None
    else
      match (Text.ParseDigits(s[..n - |suffix| - width - 1]), Text.ParseDigits(s[n - |suffix| - width..n - |suffix|]))
      case (Some(w), Some(f)) => Some((w, f))
      case _ => None
  }

  /** What `Decimal` writes for a non-negative whole part and a fraction of `width` digits, `ReadDecimal` reads back. */
  lemma DecimalRoundTrip(whole: nat, frac: nat, width: nat, suffix: string)
    requires width >= 1 && frac < Text.Pow10(width)
    ensures ReadDecimal(Decimal(whole, frac, width, suffix), width, suffix) == Some((whole, frac))
  {
    var w := Text.IntToString(whole);
    var f := Text.ZeroPadded(frac, width);
    Text.FixedWidth(frac, width);
    Text.ParseDigitsToString(whole);
    var s := Decimal(whole, frac, width, suffix);
    var n := |s|;
    assert n == |w| + 1 + width + |suffix|;
    assert s[n - |suffix|..] == suffix;
    assert s[..n - |suffix| - width - 1] == w;
    assert s[n - |suffix| - width..n - |suffix|] == f;
  }

  /** `nanoToString`: milliseconds, a point and six digits of nanoseconds, then "ms". */
  function NanoToString(nanotime: int): string
  {
    var nanos := JavaMath.Rem(nanotime, NANO_MILLI);
    var milli := JavaMath.Wrap32(JavaMath.Div(nanotime, NANO_MILLI));
    Decimal(milli, nanos, 6, "ms")
  }

  /** `nanoToMicroString`: microseconds, a point and three digits of nanoseconds, then "us". */
  function NanoToMicroString(nanotime: int): string
  {
    var nanos := JavaMath.Rem(nanotime, NANO_MICRO);
    var micro := JavaMath.Wrap32(JavaMath.Div(nanotime, NANO_MICRO));
    Decimal(micro, nanos, 3, "us")
  }

  /**
   * A non-negative time whose millisecond count fits an `Int` is printed
   * exactly: the text reads back as milliseconds and nanoseconds that add
   * up to `nanotime`.
   */
  lemma NanoToStringExact(nanotime: int)
    requires 0 <= nanotime && nanotime / NANO_MILLI <= JavaMath.INT_MAX
    ensures var r := ReadDecimal(NanoToString(nanotime), 6, "ms");
      r.Some? && r.value.0 * NANO_MILLI + r.value.1 == nanotime
  {
    NanoToStringParts(nanotime);
    Pow10Six();
    SplitReadsBack(nanotime, NANO_MILLI, 6, "ms");
  }

  /** For a non-negative time whose milliseconds fit an `Int`, the Java arithmetic is the plain one. */
  lemma NanoToStringParts(nanotime: int)
    requires 0 <= nanotime && nanotime / NANO_MILLI <= JavaMath.INT_MAX
    ensures NanoToString(nanotime) == Decimal(nanotime / NANO_MILLI, nanotime % NANO_MILLI, 6, "ms")
  {
    JavaMath.DivNonNegative(nanotime, NANO_MILLI);
    JavaMath.Wrap32Identity(nanotime / NANO_MILLI);
  }

  lemma Pow10Six()
    ensures Text.Pow10(6) == NANO_MILLI
  {
  }

  /** A count split into whole units and a fraction of `width` digits reads back as the count. */
  lemma SplitReadsBack(t: nat, unit: nat, width: nat, suffix: string)
    requires width >= 1 && unit == Text.Pow10(width)
    ensures unit > 0
    ensures var r := ReadDecimal(Decimal(t / unit, t % unit, width, suffix), width, suffix);
      r.Some? && r.value.0 * unit + r.value.1 == t
  {
    var q, m := t / unit, t % unit;
    JavaMath.DivRemSpec(t, unit);
    JavaMath.DivNonNegative(t, unit);
    JavaMath.EuclidFacts(t, unit);
    DecimalRoundTrip(q, m, width, suffix);
  }

  /** The same for `nanoToMicroString`, on microseconds. */
  lemma NanoToMicroStringExact(nanotime: int)
    requires 0 <= nanotime && nanotime / NANO_MICRO <= JavaMath.INT_MAX
    ensures var r := ReadDecimal(NanoToMicroString(nanotime), 3, "us");
      r.Some? && r.value.0 * NANO_MICRO + r.value.1 == nanotime
  {
    JavaMath.DivNonNegative(nanotime, NANO_MICRO);
    JavaMath.Wrap32Identity(nanotime / NANO_MICRO);
    DecimalRoundTrip(nanotime / NANO_MICRO, nanotime % NANO_MICRO, 3, "us");
  }

  /** `milliToString` as written: the milliseconds are printed as six digits of the second. */
  function MilliToStringAsWritten(millitime: int): string
  {
    var micros := JavaMath.Wrap32(JavaMath.Rem(millitime, 1000));
    var seconds := JavaMath.Wrap32(JavaMath.Div(millitime, 1000));
    Decimal(seconds, micros, 6, "s")
  }

  /**
   * 1500 milliseconds print as "1.000500s", which reads as 1.0005 seconds
   * (1000500 microseconds) rather than 1.5 seconds.
   */
  lemma MilliToStringMisreads()
    ensures MilliToStringAsWritten(1500) == "1.000500s"
    ensures var r := ReadDecimal(MilliToStringAsWritten(1500), 6, "s");
      r.Some? && r.value.0 * 1_000_000 + r.value.1 != 1500 * 1000
  {
    MilliToString1500();
    DecimalText1500();
    DecimalRoundTrip(1, 500, 6, "s");
  }

  /** The text of one second and 500 with six fraction digits. */
  lemma DecimalText1500()
    ensures Decimal(1, 500, 6, "s") == "1.000500s"
  {
    assert Text.NatToString(500) == "500" by {
      assert Text.NatToString(5) == "5";
      assert Text.NatToString(50) == "50";
    }
    assert Text.ZeroPadded(500, 6) == "000500";
    assert Text.IntToString(1) == "1";
  }

  /** The parts `milliToString` prints for 1500 milliseconds: one second and 500. */
  lemma MilliToString1500()
    ensures MilliToStringAsWritten(1500) == Decimal(1, 500, 6, "s")
  {
    JavaMath.DivNonNegative(1500, 1000);
    JavaMath.Wrap32Identity(500);
    JavaMath.Wrap32Identity(1);
  }

  /** `milliToString` with the fraction printed as the three digits of milliseconds it holds. */
  function MilliToString(millitime: int): string
  {
    var millis := JavaMath.Wrap32(JavaMath.Rem(millitime, 1000));
    var seconds := JavaMath.Wrap32(JavaMath.Div(millitime, 1000));
    Decimal(seconds, millis, 3, "s")
  }

  /** With three digits the text reads back as seconds and milliseconds adding up to `millitime`. */
  lemma MilliToStringExact(millitime: int)
    requires 0 <= millitime && millitime / 1000 <= JavaMath.INT_MAX
    ensures var r := ReadDecimal(MilliToString(millitime), 3, "s");
      r.Some? && r.value.0 * 1000 + r.value.1 == millitime
  {
    JavaMath.DivNonNegative(millitime, 1000);
    JavaMath.Wrap32Identity(millitime / 1000);
    JavaMath.Wrap32Identity(millitime % 1000);
    DecimalRoundTrip(millitime / 1000, millitime % 1000, 3, "s");
  }

  /** `secondsToString`: "HH:MM:SS", the hours taken modulo a day. */
  function SecondsToString(time: int): string
  {
    var seconds := JavaMath.Rem(time, 60);
    var minutes := JavaMath.Rem(JavaMath.Div(time, 60), 60);
    var hours := JavaMath.Rem(JavaMath.Div(time, 60 * 60), 24);
    Text.ZeroPadded(hours, 2) + ":" + Text.ZeroPadded(minutes, 2) + ":" + Text.ZeroPadded(seconds, 2)
  }

  /** Reads "HH:MM:SS" back as a number of seconds into the day. */
  function ReadClock(s: string): Option<nat>
  {
    if |s| != 8 || s[2] != ':' || s[5] != ':' then None
    else
      match (Text.ParseDigits(s[..2]), Text.ParseDigits(s[3..5]), Text.ParseDigits(s[6..]))
      case (Some(h), Some(m), Some(sec)) => Some(h * 3600 + m * 60 + sec)
      case _ => None
  }

  /** A non-negative time prints as the clock time of day it falls on. */
  lemma SecondsToStringClock(time: int)
    requires time >= 0
    ensures ReadClock(SecondsToString(time)) == Some(time % 86400)
  {
    ClockFields(time);
    ReadClockFields((time / 3600) % 24, (time / 60) % 60, time % 60);
  }

  /** Hours, minutes and seconds printed as two digits each and joined by colons read back as that time of day. */
  lemma ReadClockFields(h: nat, m: nat, sec: nat)
    requires h < 100 && m < 100 && sec < 100
    ensures ReadClock(Text.ZeroPadded(h, 2) + ":" + Text.ZeroPadded(m, 2) + ":" + Text.ZeroPadded(sec, 2))
      == Some(h * 3600 + m * 60 + sec)
  {
    Text.FixedWidth(h, 2);
    Text.FixedWidth(m, 2);
    Text.FixedWidth(sec, 2);
    ReadClockText(Text.ZeroPadded(h, 2), Text.ZeroPadded(m, 2), Text.ZeroPadded(sec, 2), h, m, sec);
  }

  /** Three two-character fields joined by colons are read one by one. */
  lemma ReadClockText(hh: string, mm: string, ss: string, h: nat, m: nat, sec: nat)
    requires |hh| == 2 && |mm| == 2 && |ss| == 2
    requires Text.ParseDigits(hh) == Some(h) && Text.ParseDigits(mm) == Some(m) && Text.ParseDigits(ss) == Some(sec)
    ensures ReadClock(hh + ":" + mm + ":" + ss) == Some(h * 3600 + m * 60 + sec)
  {
    var s := hh + ":" + mm + ":" + ss;
    assert s[..2] == hh && s[3..5] == mm && s[6..] == ss;
  }

  /** Java's division and remainder on a non-negative time split it into the fields of a clock. */
  lemma ClockFields(time: int)
    requires time >= 0
    ensures JavaMath.Rem(time, 60) == time % 60
    ensures JavaMath.Rem(JavaMath.Div(time, 60), 60) == (time / 60) % 60
    ensures JavaMath.Rem(JavaMath.Div(time, 60 * 60), 24) == (time / 3600) % 24
    ensures (time / 3600) % 24 * 3600 + (time / 60) % 60 * 60 + time % 60 == time % 86400
  {
    JavaMath.DivNonNegative(time, 60);
    JavaMath.DivNonNegative(time / 60, 60);
    JavaMath.DivNonNegative(time, 3600);
    JavaMath.DivNonNegative(time / 3600, 24);
    var a, r0 := time / 60, time % 60;
    var b, r1 := a / 60, a % 60;
    var c, r2 := b / 24, b % 24;
    assert time == 3600 * b + 60 * r1 + r0;
    assert time / 3600 == b;
    assert time == 86400 * c + (3600 * r2 + 60 * r1 + r0);
    assert 0 <= 3600 * r2 + 60 * r1 + r0 < 86400;
  }

  /** `daysToDate`: "YYYY-DDD", the year counted from 2100 and the day of the year from 1. */
  function DaysToDate(days: int): string
  {
    var year := 2100 + JavaMath.Div(days, 365);
    Text.ZeroPadded(year, 4) + "-" + Text.ZeroPadded(1 + JavaMath.Rem(days, 365), 3)
  }

  /** `daysToYear`: the year alone, "YYYY". */
  function DaysToYear(days: int): string
  {
    var year := 2100 + JavaMath.Div(days, 365);
    Text.ZeroPadded(year, 4)
  }

  /** `daysToSubYear`: the number of whole years, modulo 100, as two digits. */
  function DaysToSubYear(days: int): string
  {
    var year := JavaMath.Div(days, 365);
    Text.ZeroPadded(JavaMath.Rem(year, 100), 2)
  }

  /** Reads "YYYY-DDD" back as a day count from the first day of 2100. */
  function ReadDate(s: string): Option<int>
  {
    if |s| != 8 || s[4] != '-' then None
    else
      match (Text.ParseDigits(s[..4]), Text.ParseDigits(s[5..]))
      case (Some(y), Some(d)) => Some((y - 2100) * 365 + d - 1)
      case _ => None
  }

  /** Up to the year 9999 a date reads back as the day it was printed for. */
  lemma DaysToDateRoundTrip(days: int)
    requires 0 <= days < 7900 * 365
    ensures ReadDate(DaysToDate(days)) == Some(days)
  {
    var year, day := 2100 + days / 365, 1 + days % 365;
    assert (year - 2100) * 365 + day - 1 == days by {
      JavaMath.DivRemSpec(days, 365);
      JavaMath.DivNonNegative(days, 365);
    }
    assert ReadDate(DaysToDate(days)) == Some((year - 2100) * 365 + day - 1) by {
      DateFields(days);
      Text.FixedWidth(year, 4);
      Text.FixedWidth(day, 3);
      ReadDateFields(Text.ZeroPadded(year, 4), Text.ZeroPadded(day, 3), year, day);
    }
  }

  /** A four-digit year and a three-digit day joined by a dash read back as a day count. */
  lemma ReadDateFields(yyyy: string, ddd: string, y: nat, d: nat)
    requires |yyyy| == 4 && |ddd| == 3
    requires Text.ParseDigits(yyyy) == Some(y) && Text.ParseDigits(ddd) == Some(d)
    ensures ReadDate(yyyy + "-" + ddd) == Some((y - 2100) * 365 + d - 1)
  {
    var s := yyyy + "-" + ddd;
    assert s[..4] == yyyy && s[5..] == ddd;
  }

  /** The date begins with the year `daysToYear` prints. */
  lemma DateStartsWithYear(days: int)
    ensures DaysToDate(days)[..|DaysToYear(days)|] == DaysToYear(days)
  {
  }

  /** Up to the year 9999 the sub-year is the last two digits of the year. */
  lemma SubYearEndsYear(days: int)
    requires 0 <= days < 7900 * 365
    ensures DaysToSubYear(days) == DaysToYear(days)[2..]
  {
    var q := days / 365;
    YearFields(days, q);
    LastTwoOfYear(q);
    EndsAlike(DaysToSubYear(days), DaysToYear(days), Text.ZeroPadded(q % 100, 2), Text.ZeroPadded(2100 + q, 4));
  }

  /** A tail relation carries over to equal strings. */
  lemma EndsAlike(sub: string, year: string, sub2: string, year2: string)
    requires sub == sub2 && year == year2 && |year2| >= 2 && sub2 == year2[2..]
    ensures |year| >= 2 && sub == year[2..]
  {
  }

  /** For a non-negative day count Java's division and remainder are the plain ones. */
  lemma YearFields(days: int, q: int)
    requires days >= 0 && q == days / 365
    ensures DaysToYear(days) == Text.ZeroPadded(2100 + q, 4)
    ensures DaysToSubYear(days) == Text.ZeroPadded(q % 100, 2)
  {
    JavaMath.DivNonNegative(days, 365);
    JavaMath.DivNonNegative(q, 100);
  }

  /** The same for the whole date, "YYYY-DDD". */
  lemma DateFields(days: int)
    requires days >= 0
    ensures DaysToDate(days) == Text.ZeroPadded(2100 + days / 365, 4) + "-" + Text.ZeroPadded(1 + days % 365, 3)
  {
    JavaMath.DivNonNegative(days, 365);
    assert Text.ZeroPadded(2100 + JavaMath.Div(days, 365), 4) == Text.ZeroPadded(2100 + days / 365, 4);
    assert Text.ZeroPadded(1 + JavaMath.Rem(days, 365), 3) == Text.ZeroPadded(1 + days % 365, 3);
  }

  /** The last two digits of year 2100 + y are those of y. */
  lemma LastTwoOfYear(y: nat)
    requires y < 7900
    ensures Text.ZeroPadded(y % 100, 2) == Text.ZeroPadded(2100 + y, 4)[2..]
  {
    var n := 2100 + y;
    FourDigits(n);
    TwoDigits(y % 100);
    var a, b, c := y / 10 / 10, y / 10 % 10, y % 10;
    JavaMath.DivUnique(y / 10, 10, a, b);
    JavaMath.DivUnique(y, 10, y / 10, c);
    JavaMath.DivUnique(n, 10, 210 + y / 10, c);
    JavaMath.DivUnique(210 + y / 10, 10, 21 + a, b);
    JavaMath.DivUnique(y, 100, a, 10 * b + c);
    JavaMath.DivUnique(10 * b + c, 10, b, c);
    assert n / 10 % 10 == b && n % 10 == c && y % 100 / 10 == b && y % 100 % 10 == c;
  }

  /** A number with four digits is printed as those digits. */
  lemma FourDigits(n: nat)
    requires 1000 <= n < 10000
    ensures Text.ZeroPadded(n, 4) == [Text.DigitChar(n / 1000), Text.DigitChar(n / 100 % 10),
                                      Text.DigitChar(n / 10 % 10), Text.DigitChar(n % 10)]
    ensures Text.ZeroPadded(n, 4)[2..] == [Text.DigitChar(n / 10 % 10), Text.DigitChar(n % 10)]
  {
    assert Text.NatToString(n / 1000) == [Text.DigitChar(n / 1000)];
    assert n / 10 / 10 == n / 100 && n / 100 / 10 == n / 1000;
    assert Text.NatToString(n / 100) == [Text.DigitChar(n / 1000), Text.DigitChar(n / 100 % 10)];
    assert Text.NatToString(n / 10) == Text.NatToString(n / 100) + [Text.DigitChar(n / 10 % 10)];
  }

  /** A number below 100 is printed by `%02d` as its tens and units digits. */
  lemma TwoDigits(m: nat)
    requires m < 100
    ensures Text.ZeroPadded(m, 2) == [Text.DigitChar(m / 10), Text.DigitChar(m % 10)]
  {
    if m < 10 {
      assert Text.NatToString(m) == [Text.DigitChar(m)];
      assert Text.DigitChar(0) == '0';
    } else {
      assert Text.NatToString(m / 10) == [Text.DigitChar(m / 10)];
    }
  }

  /** `daysToRemaining`: "%3d days" up to a year, then "Y years %3d days". */
  function DaysToRemaining(days: int): string
  {
    if days <= 365 then Text.SpacePadded(days, 3) + " days"
    else
      var year := JavaMath.Div(days, 365);
      Text.IntToString(year) + " years " + Text.SpacePadded(JavaMath.Rem(days, 365), 3) + " days"
  }

  /** Beyond a year, the years and days printed add up to the remaining days. */
  lemma DaysToRemainingSplits(days: int)
    requires days > 365
    ensures exists y: nat, d: nat :: (d < 365 && y * 365 + d == days
      && DaysToRemaining(days) == Text.IntToString(y) + " years " + Text.SpacePadded(d, 3) + " days")
  {
    JavaMath.DivNonNegative(days, 365);
    var y: nat, d: nat := days / 365, days % 365;
    assert d < 365 && y * 365 + d == days
      && DaysToRemaining(days) == Text.IntToString(y) + " years " + Text.SpacePadded(d, 3) + " days";
  }

  /**
   * The unit names of a metric formatter for its six ranges (below a
   * thousand, the four decimal ranges and the range from a thousand tera
   * up) with the number of base units each name stands for.
   */
  datatype Scale = Scale(names: seq<string>, worth: seq<nat>)
  {
    ghost predicate WellFormed() { |names| == 6 && |worth| == 6 }
  }

  /** What the printed number is divided by in range `k`: 1, 10^3, 10^6, 10^9, 10^12 and again 10^12. */
  function Divisor(k: nat): nat
    requires k < 6
  {
    match k
    case 0 => 1
    case 1 => KILO
    case 2 => MEGA
    case 3 => GIGA
    case _ => TERA
  }

  /** How a metric value is printed: `Plain(w, k)` is "%d <unit k>", `Fraction(w, f, k)` is "%d.%02d <unit k>". */
  datatype Parts = Plain(whole: int, range: nat) | Fraction(whole: int, frac: nat, range: nat)

  /** The thresholds and arithmetic shared by `powerToString`, `capacityToString`, `massToString` and `distanceToString`. */
  function MetricParts(x: int): (p: Parts)
    ensures p.range < 6
  {
    if x < KILO then Plain(x, 0)
    else if x < MEGA then Fraction(x / KILO, x % KILO / 10, 1)
    else if x < GIGA then Fraction(x / MEGA, x % MEGA / 10 / KILO, 2)
    else if x < TERA then Fraction(x / GIGA, x % GIGA / 10 / MEGA, 3)
    else if x < 1000 * TERA then Fraction(x / TERA, x % TERA / 10 / GIGA, 4)
    else Plain(x / TERA, 5)
  }

  /**
   * The value is cut to hundredths of the unit it is printed in: the range
   * is the largest whose divisor does not exceed the value, and the printed
   * number, times the divisor, is at most the value and less than a
   * hundredth of the divisor below it.
   */
  lemma MetricTruncates(x: int)
    ensures var p := MetricParts(x);
      match p
      case Plain(w, k) =>
        (k == 0 && x < KILO && w == x) || (k == 5 && x >= 1000 * TERA && w * TERA <= x < (w + 1) * TERA)
      case Fraction(w, f, k) =>
        1 <= k <= 4 && Divisor(k) <= x < 1000 * Divisor(k) && f < 100
        && w * Divisor(k) + f * (Divisor(k) / 100) <= x < w * Divisor(k) + (f + 1) * (Divisor(k) / 100)
  {
    if x < KILO {
    } else if x < MEGA {
      Hundredths(x, 1000, 1);
    } else if x < GIGA {
      Hundredths(x, 1_000_000, 1000);
    } else if x < TERA {
      Hundredths(x, 1_000_000_000, 1_000_000);
    } else if x < 1000 * TERA {
      Hundredths(x, 1_000_000_000_000, 1_000_000_000);
    } else {
      JavaMath.DivUnique(x, TERA, x / TERA, x % TERA);
    }
  }

  /**
   * `x % d / 10 / e`, with `d == 1000 * e`, is the number of whole
   * hundredths of `d` left over after the whole multiples of `d`.
   */
  lemma Hundredths(x: int, d: int, e: int)
    requires e >= 1 && d == 1000 * e && x >= 0
    ensures var w, f := x / d, x % d / 10 / e;
      0 <= f < 100 && w * d + f * (10 * e) <= x < w * d + (f + 1) * (10 * e)
  {
    var w, r := x / d, x % d;
    JavaMath.DivUnique(x, d, w, r);
    var q := r / 10;
    var f := q / e;
    JavaMath.DivUnique(r, 10, q, r % 10);
    JavaMath.DivUnique(q, e, f, q % e);
    assert 10 * e * f <= r < 10 * e * f + 10 * e by {
      assert 10 * q <= r < 10 * q + 10;
      assert e * f <= q < e * f + e;
    }
    assert f < 100 by {
      if f >= 100 {
        JavaMath.MulMonotone(10 * e, 100, f);
      }
    }
  }

  /** "%d <unit>" or "%d.%02d <unit>" with the unit names of `scale`. */
  function Metric(x: int, scale: Scale): string
    requires scale.WellFormed()
  {
    match MetricParts(x)
    case Plain(w, k) => Text.IntToString(w) + " " + scale.names[k]
    case Fraction(w, f, k) => Decimal(w, f, 2, " " + scale.names[k])
  }

  /** Every unit name stands for the divisor it is printed with, so the text never misstates the magnitude. */
  ghost predicate Consistent(scale: Scale)
  {
    scale.WellFormed() && forall k :: 0 <= k < 6 ==> scale.worth[k] == Divisor(k)
  }

  const POWER := Scale(["W", "kW", "MW", "GW", "TW", "TW"], [1, KILO, MEGA, GIGA, TERA, TERA])
  const CAPACITY := Scale(["J", "kJ", "MJ", "GJ", "TJ", "TJ"], [1, KILO, MEGA, GIGA, TERA, TERA])
  /** Mass is kept in kilograms, so a thousand kilograms is a megagram. */
  const MASS := Scale(["kg", "Mg", "Gg", "Tg", "Pg", "Pg"], [1, KILO, MEGA, GIGA, TERA, TERA])
  /** Distance as written: the top range prints metres divided by 10^12 as petametres. */
  const DISTANCE_AS_WRITTEN := Scale(["m", "km", "Mm", "Gm", "Tm", "Pm"], [1, KILO, MEGA, GIGA, TERA, 1000 * TERA])
  /** Distance with the top range named after the divisor it is printed with. */
  const DISTANCE := Scale(["m", "km", "Mm", "Gm", "Tm", "Tm"], [1, KILO, MEGA, GIGA, TERA, TERA])

  /** `powerToString`: watts below a kilowatt, whole terawatts from a thousand terawatts up. */
  function PowerToString(power: int): (s: string)
    ensures power < KILO ==> s == Text.IntToString(power) + " W"
    ensures power >= 1000 * TERA ==> s == Text.IntToString(power / TERA) + " TW"
  {
    Metric(power, POWER)
  }

  /** `capacityToString`: joules below a kilojoule, whole terajoules from a thousand terajoules up. */
  function CapacityToString(capacity: int): (s: string)
    ensures capacity < KILO ==> s == Text.IntToString(capacity) + " J"
    ensures capacity >= 1000 * TERA ==> s == Text.IntToString(capacity / TERA) + " TJ"
  {
    Metric(capacity, CAPACITY)
  }

  /** `massToString`: kilograms below a tonne, whole petagrams from a thousand petagrams up. */
  function MassToString(mass: int): (s: string)
    ensures mass < KILO ==> s == Text.IntToString(mass) + " kg"
    ensures mass >= 1000 * TERA ==> s == Text.IntToString(mass / TERA) + " Pg"
  {
    Metric(mass, MASS)
  }
  /** `distanceToString` as written. */
  function DistanceToStringAsWritten(distance: int): string { Metric(distance, DISTANCE_AS_WRITTEN) }
  /** `distanceToString`, with the top range in terametres. */
  function DistanceToString(distance: int): string { Metric(distance, DISTANCE) }

  /** Power, capacity, mass and the corrected distance name each range after its divisor. */
  lemma ScalesConsistent()
    ensures Consistent(POWER) && Consistent(CAPACITY) && Consistent(MASS) && Consistent(DISTANCE)
  {
  }

  /**
   * As written, distances from 10^15 metres up are printed a thousand
   * times too large: 2 * 10^15 metres print as "2000 Pm".
   */
  lemma DistanceOverstates()
    ensures !Consistent(DISTANCE_AS_WRITTEN)
    ensures DistanceToStringAsWritten(2 * 1000 * TERA) == "2000 Pm"
    ensures DistanceToString(2 * 1000 * TERA) == "2000 Tm"
  {
    assert DISTANCE_AS_WRITTEN.worth[5] != Divisor(5);
    var x := 2 * 1000 * TERA;
    assert MetricParts(x) == Plain(2000, 5);
    assert Text.IntToString(2000) == "2000" by {
      assert Text.NatToString(2) == "2";
      assert Text.NatToString(20) == "20";
      assert Text.NatToString(200) == "200";
    }
    assert DistanceToStringAsWritten(x) == Text.IntToString(2000) + " " + "Pm";
    assert DistanceToString(x) == Text.IntToString(2000) + " " + "Tm";
  }

  /** `volumeToString`: cubic centimetres below a litre, litres with two decimals below a cubic metre, then whole cubic metres. */
  function VolumeToString(volume: int): string
  {
    if volume < CUBIC_DECIMETRE then Text.IntToString(volume) + " cm\U{00B3}"
    else if volume < CUBIC_METRE then Decimal(volume / CUBIC_DECIMETRE, volume % CUBIC_DECIMETRE / 10, 2, " dm\U{00B3}")
    else Text.IntToString(volume / CUBIC_METRE) + " m\U{00B3}"
  }

  /** Between a litre and a cubic metre the text reads back as the volume cut to hundredths of a litre. */
  lemma VolumeToStringLitres(volume: int)
    requires CUBIC_DECIMETRE <= volume < CUBIC_METRE
    ensures var r := ReadDecimal(VolumeToString(volume), 2, " dm\U{00B3}");
      r.Some? && r.value.0 * 1000 + r.value.1 * 10 <= volume < r.value.0 * 1000 + r.value.1 * 10 + 10
  {
    DecimalRoundTrip(volume / 1000, volume % 1000 / 10, 2, " dm\U{00B3}");
  }
}
