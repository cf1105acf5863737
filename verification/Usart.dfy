/** Baud-rate selection (lib/usart.c, usart_set_speed) and how close the resulting rate is. */
module Usart {
  import opened Bytes
  import opened BitMath

  const BAUD_DIVIDER_MAX: nat := 8192
  const FDV_SCALE: nat := 512

  /** cpu_get_fpi1_freq() >> 4. */
  function MaxBaudRate(fpi1: Word32): nat {
    fpi1 / 16
  }

  function Divider(max: nat, baud: nat): nat
    requires baud > 0
  {
    Min(max / baud, BAUD_DIVIDER_MAX)
  }

  /** The fractional divider before 512 is written as 0. */
  function Fraction(max: nat, baud: nat): nat
    requires baud > 0 && max > 0
  {
    (baud * Divider(max, baud) * FDV_SCALE + max / 2) / max
  }

  /**
   The rate the hardware runs at: a fractional value of 0 bypasses the fractional divider
   (examples/uart_irq/baud.c).
   */
  function Rate(max: nat, bg: nat, fdv: nat): real {
    var whole := max as real / (bg + 1) as real;
    if fdv == 0 then whole else whole * fdv as real / 512.0
  }

  class Registers {
    var bg: Word32
    var fdv: Word32

    /** usart_set_speed; a divider of 0 makes the 32-bit subtraction wrap. */
    method SetSpeed(fpi1: Word32, baudRate: Word32)
      requires baudRate > 0 && MaxBaudRate(fpi1) > 0
      modifies this
      ensures bg == (Divider(MaxBaudRate(fpi1), baudRate) - 1) % WORD
      ensures fdv == if Fraction(MaxBaudRate(fpi1), baudRate) == FDV_SCALE then 0
        else Fraction(MaxBaudRate(fpi1), baudRate)
      ensures baudRate <= MaxBaudRate(fpi1) ==> bg + 1 == Divider(MaxBaudRate(fpi1), baudRate)
      ensures InReach(fpi1, baudRate) ==> CloseTo(LineRate(fpi1, bg, fdv), baudRate)
    {
      var max := fpi1 / 16;
      var divider := Min(max / baudRate, BAUD_DIVIDER_MAX);
      if baudRate <= max {
        DividerBounds(max, baudRate);
      }
      ScaledFits(max, baudRate);
      var scaled := baudRate * divider * FDV_SCALE;
      var fraction := (scaled + max / 2) / max;
      bg := (divider - 1) % WORD;
      fdv := if fraction == FDV_SCALE then 0 else fraction;
      if InReach(fpi1, baudRate) {
        LineRateClose(fpi1, baudRate);
      }
    }
  }

  lemma DividerBounds(max: nat, baud: nat)
    requires 0 < baud <= max
    ensures 1 <= Divider(max, baud)
    ensures Divider(max, baud) * baud <= max
    ensures max / baud <= BAUD_DIVIDER_MAX ==> max < 2 * (Divider(max, baud) * baud)
    ensures max / baud > BAUD_DIVIDER_MAX ==> BAUD_DIVIDER_MAX * baud < max
  {
    var q := max / baud;
    assert q * baud <= max < (q + 1) * baud by {
      assert max == q * baud + max % baud;
      assert (q + 1) * baud == q * baud + baud;
    }
    assert q >= 1 by {
      if q + 1 <= 1 { MultipleOrder(q + 1, 1, baud); }
    }
    MultipleOrder(1, q, baud);
    if q > BAUD_DIVIDER_MAX {
      MultipleOrder(BAUD_DIVIDER_MAX + 1, q, baud);
    }
  }

  lemma MultipleOrder(a: nat, b: nat, c: nat)
    requires a <= b
    ensures a * c <= b * c
  {}

  /** Rounding to the nearest: twice the remainder never exceeds the modulus. */
  lemma NearestFraction(scaled: nat, max: nat)
    requires max > 0
    ensures var f := (scaled + max / 2) / max;
            -(max as int) <= 2 * (f * max - scaled) <= max
  {
    var n := scaled + max / 2;
    assert n == (n / max) * max + n % max;
  }

  lemma FractionNearest(max: nat, baud: nat)
    requires 0 < baud && 0 < max
    ensures -(max as int) <= 2 * (Fraction(max, baud) * max - baud * Divider(max, baud) * 512) <= max
  {
    hide Divider;
    NearestFraction(baud * Divider(max, baud) * FDV_SCALE, max);
  }

  /** With the divider in range the fraction stays between one half and one. */
  lemma FractionRange(max: nat, baud: nat)
    requires 0 < baud <= max
    ensures Fraction(max, baud) <= FDV_SCALE
    ensures max / baud <= BAUD_DIVIDER_MAX ==> 256 <= Fraction(max, baud)
  {
    DividerBounds(max, baud);
    var p := Divider(max, baud) * baud;
    assert baud * Divider(max, baud) * FDV_SCALE == 512 * p;
    QuotientRange(512 * p + max / 2, max, p);
  }

  lemma QuotientRange(n: nat, max: nat, p: nat)
    requires max > 0 && n == 512 * p + max / 2
    ensures p <= max ==> n / max <= 512
    ensures max < 2 * p ==> n / max >= 256
  {
    var f := n / max;
    assert n == f * max + n % max;
    if f >= 513 {
      MultipleOrder(513, f, max);
    }
    if f <= 255 {
      MultipleOrder(f, 255, max);
    }
  }

  lemma ScaledFits(max: nat, baud: nat)
    requires 0 < baud < WORD && 0 < max < WORD
    ensures Fraction(max, baud) < WORD
  {
    if baud <= max {
      FractionRange(max, baud);
    } else {
      SmallQuotient(max, baud);
      assert baud * 0 * FDV_SCALE == 0;
    }
  }

  lemma SmallQuotient(a: nat, b: nat)
    requires a < b
    ensures a / b == 0
  {}

  // ----- how far the rate is off

  /** The rate is max * f / (512 * d) for the chosen divider d and fraction f. */
  lemma RateAsQuotient(max: nat, d: nat, f: nat)
    requires d > 0 && 0 < f <= FDV_SCALE
    ensures Rate(max, d - 1, if f == FDV_SCALE then 0 else f) * (512 * d) as real == (max * f) as real
  {
    var whole := max as real / d as real;
    assert whole * d as real == max as real;
    if f != FDV_SCALE {
      assert whole * f as real / 512.0 * (512 * d) as real == whole * d as real * f as real;
    } else {
      assert whole * (512 * d) as real == whole * d as real * 512.0;
    }
  }

  function RateFor(max: nat, baud: nat): real
    requires 0 < baud <= max
  {
    DividerBounds(max, baud);
    var f := Fraction(max, baud);
    Rate(max, Divider(max, baud) - 1, if f == FDV_SCALE then 0 else f)
  }

  /** |x - y| <= e */
  predicate Within(x: real, y: real, e: real) {
    -e <= x - y <= e
  }

  /** Unless the fraction rounds to 0, the error is at most max / (1024 * divider). */
  lemma ErrorBound(max: nat, baud: nat)
    requires 0 < baud <= max && Fraction(max, baud) > 0
    ensures Divider(max, baud) > 0
    ensures Within(RateFor(max, baud), baud as real, max as real / (1024 * Divider(max, baud)) as real)
  {
    hide Rate, Fraction, Divider, Within;
    DividerBounds(max, baud);
    FractionRange(max, baud);
    var d, f := Divider(max, baud), Fraction(max, baud);
    FractionNearest(max, baud);
    RateAsQuotient(max, d, f);
    ScaledError(RateFor(max, baud), max, baud, d, f);
  }

  lemma ScaledError(rate: real, max: nat, baud: nat, d: nat, f: nat)
    requires d > 0 && rate * (512 * d) as real == (max * f) as real
    requires -(max as int) <= 2 * (f * max - baud * d * 512) <= max
    ensures Within(rate, baud as real, max as real / (1024 * d) as real)
  {
    var n, e := 512 * d, max as real / (1024 * d) as real;
    var miss := max * f - baud * n;
    Regroup(max, f, baud, d);
    CastProduct(baud, n);
    DifferenceTimes(rate, baud as real, n as real);
    HalfUnit(max, d);
    ScaledDown(rate - baud as real, e, n as real, miss, max);
  }

  lemma ScaledDown(x: real, e: real, n: real, miss: int, max: nat)
    requires n > 0.0 && x * n == miss as real && e * n * 2.0 == max as real && -(max as int) <= 2 * miss <= max
    ensures -e <= x <= e
  {
    HalfOfUnit(x * n, e * n, miss, max);
    ScaleDown(x, e, n);
  }

  lemma HalfOfUnit(x: real, e: real, miss: int, max: nat)
    requires x == miss as real && e * 2.0 == max as real && -(max as int) <= 2 * miss <= max
    ensures -e <= x <= e
  {
    assert (2 * miss) as real == 2.0 * x;
  }

  lemma DifferenceTimes(x: real, y: real, n: real)
    ensures (x - y) * n == x * n - y * n
  {}

  lemma Regroup(max: nat, f: nat, baud: nat, d: nat)
    ensures f * max - baud * d * 512 == max * f - baud * (512 * d)
  {}

  lemma CastProduct(a: nat, b: nat)
    ensures (a * b) as real == a as real * b as real
  {}

  lemma HalfUnit(max: nat, d: nat)
    requires d > 0
    ensures max as real / (1024 * d) as real * (512 * d) as real * 2.0 == max as real
  {
    var e := max as real / (1024 * d) as real;
    assert (1024 * d) as real == (512 * d) as real * 2.0;
    assert e * (1024 * d) as real == max as real;
  }

  lemma PositiveProduct(x: real, n: real)
    requires n > 0.0
    ensures x > 0.0 ==> x * n > 0.0
  {}

  lemma ScaleDown(x: real, e: real, n: real)
    requires n > 0.0 && -(e * n) <= x * n <= e * n
    ensures -e <= x <= e
  {
    PositiveProduct(x - e, n);
    PositiveProduct(-e - x, n);
    assert (x - e) * n == x * n - e * n && (-e - x) * n == -e * n - x * n;
  }

  /** Divider in range: the error is less than one part in 512 of the requested rate. */
  lemma Accurate(max: nat, baud: nat)
    requires 0 < baud <= max && max / baud <= BAUD_DIVIDER_MAX
    ensures 256 <= Fraction(max, baud) <= FDV_SCALE
    ensures RateFor(max, baud) - baud as real < baud as real / 512.0
    ensures baud as real - RateFor(max, baud) < baud as real / 512.0
  {
    FractionRange(max, baud);
    ErrorBound(max, baud);
    DividerBounds(max, baud);
    hide Rate, Fraction, Divider, RateFor;
    SmallError(max, baud, Divider(max, baud));
  }

  lemma SmallError(max: nat, baud: nat, d: nat)
    requires 0 < d && max < 2 * (d * baud)
    ensures max as real / (1024 * d) as real < baud as real / 512.0
  {
    var e, g, n := max as real / (1024 * d) as real, baud as real / 512.0, (1024 * d) as real;
    assert e * n == max as real;
    CastProduct(d, baud);
    assert n == 1024.0 * d as real;
    assert g * n == 2.0 * (d as real * baud as real);
    Smaller(e, g, n);
  }

  lemma Smaller(a: real, b: real, n: real)
    requires n > 0.0 && a * n < b * n
    ensures a < b
  {
    PositiveProduct(a - b, n);
    assert (a - b) * n == a * n - b * n;
  }

  /** A rate that divides the clock is met exactly. */
  lemma ExactWhenDividing(max: nat, baud: nat)
    requires 0 < baud <= max && max / baud <= BAUD_DIVIDER_MAX && max % baud == 0
    ensures RateFor(max, baud) == baud as real
  {
    hide Fraction, Divider;
    FullFraction(max, baud);
    var d := Divider(max, baud);
    CastProduct(d, baud);
    ExactQuotient(max as real, d as real, baud as real);
  }

  /** A divider without remainder needs no fraction. */
  lemma FullFraction(max: nat, baud: nat)
    requires 0 < baud <= max && max / baud <= BAUD_DIVIDER_MAX && max % baud == 0
    ensures Divider(max, baud) > 0 && Divider(max, baud) * baud == max
    ensures Fraction(max, baud) == FDV_SCALE
  {
    DividerBounds(max, baud);
    assert max == (max / baud) * baud;
    SwapFactors(baud, Divider(max, baud));
    QuotientIs(FDV_SCALE * max + max / 2, max, FDV_SCALE, max / 2);
  }

  lemma SwapFactors(a: nat, b: nat)
    ensures a * b == b * a
  {}

  lemma ExactQuotient(max: real, d: real, baud: real)
    requires d > 0.0 && max == d * baud
    ensures max / d == baud
  {
    assert max / d * d == max;
  }

  /**
   Divider capped at 8192: the error stays within max / (1024 * 8192) exactly when the fraction does
   not round to 0, which the hardware would take for no fractional division at all.
   */
  lemma CappedBoundIff(max: nat, baud: nat)
    requires 0 < baud <= max && max / baud > BAUD_DIVIDER_MAX
    ensures Within(RateFor(max, baud), baud as real, max as real / (1024 * 8192) as real)
            <==> max <= baud * 0x40_0000 + max / 2
  {
    DividerBounds(max, baud);
    FractionRange(max, baud);
    assert baud * BAUD_DIVIDER_MAX * FDV_SCALE == baud * 0x40_0000;
    var n := baud * 0x40_0000 + max / 2;
    if max <= n {
      assert Fraction(max, baud) > 0 by {
        assert n == (n / max) * max + n % max;
      }
      ErrorBound(max, baud);
    } else {
      SmallQuotient(n, max);
      assert Fraction(max, baud) == 0;
      assert RateFor(max, baud) == max as real / 8192.0;
      assert 2 * (baud * 0x40_0000) < max + 1;
    }
  }

  /** The smallest clock and rate that miss the bound: 1 baud from just over 2^27 Hz. */
  lemma CappedBoundFails()
    ensures Fraction(0x80_0001, 1) == 0
    ensures !Within(RateFor(0x80_0001, 1), 1.0, 0x80_0001 as real / (1024 * 8192) as real)
  {
    hide RateFor, Within;
    assert Divider(0x80_0001, 1) == 8192;
    CappedBoundIff(0x80_0001, 1);
  }

  /** For clocks up to 2^27 Hz no rate is slow enough to be lost that way. */
  lemma CappedBoundHolds(max: nat, baud: nat)
    requires 0 < baud <= max <= 0x80_0000 && max / baud > BAUD_DIVIDER_MAX
    ensures Within(RateFor(max, baud), baud as real, max as real / (1024 * 8192) as real)
  {
    hide RateFor, Within;
    CappedBoundIff(max, baud);
  }

  // ----- the same from the clock itself

  /** What runs on the line: a sixteenth of the clock, divided by bg + 1 and scaled by fdv / 512 unless fdv is 0. */
  function LineRate(fpi1: nat, bg: nat, fdv: nat): real {
    var undivided := fpi1 as real / 16.0 / (bg + 1) as real;
    if fdv == 0 then undivided else undivided * fdv as real / 512.0
  }

  /** The divider is between 1 and 8192. */
  predicate InReach(fpi1: nat, baud: nat) {
    16 * baud <= fpi1 < 16 * 8193 * baud
  }

  /** Off by less than one part in 512 and one baud, which is what a clock that 16 does not divide may lose. */
  predicate CloseTo(rate: real, baud: nat) {
    -(baud as real / 512.0) < rate - baud as real < baud as real / 512.0 + 1.0
  }

  lemma SixteenthInRange(fpi1: Word32, baud: nat)
    requires 0 < baud && InReach(fpi1, baud)
    ensures baud <= MaxBaudRate(fpi1) && MaxBaudRate(fpi1) / baud <= 8192
  {
    var q := MaxBaudRate(fpi1) / baud;
    assert MaxBaudRate(fpi1) == q * baud + MaxBaudRate(fpi1) % baud;
    if q > 8192 {
      MultipleOrder(8193, q, baud);
    }
  }

  lemma LineRateClose(fpi1: Word32, baud: nat)
    requires 0 < baud && InReach(fpi1, baud)
    ensures MaxBaudRate(fpi1) > 0 && Divider(MaxBaudRate(fpi1), baud) > 0
    ensures var max := MaxBaudRate(fpi1);
            var f := Fraction(max, baud);
            CloseTo(LineRate(fpi1, Divider(max, baud) - 1, if f == FDV_SCALE then 0 else f), baud)
  {
    SixteenthInRange(fpi1, baud);
    var max := MaxBaudRate(fpi1);
    DividerBounds(max, baud);
    Accurate(max, baud);
    hide Fraction, Divider, LineRate, Rate;
    var f := Fraction(max, baud);
    RateOfSixteenth(fpi1, Divider(max, baud), if f == FDV_SCALE then 0 else f);
  }

  lemma RateOfSixteenth(fpi1: nat, d: nat, fdv: nat)
    requires d > 0 && fdv <= 512
    ensures 0.0 <= LineRate(fpi1, d - 1, fdv) - Rate(fpi1 / 16, d - 1, fdv) < 1.0
  {
    var a, m, r := fpi1 as real / 16.0, (fpi1 / 16) as real, d as real;
    assert fpi1 == 16 * (fpi1 / 16) + fpi1 % 16;
    assert 0.0 <= a - m < 1.0;
    QuotientsClose(a, m, r);
    var x, y := a / r, m / r;
    if fdv != 0 {
      ScaledClose(x, y, fdv as real);
    }
  }

  lemma QuotientsClose(a: real, m: real, r: real)
    requires r >= 1.0 && 0.0 <= a - m < 1.0
    ensures 0.0 <= a / r - m / r < 1.0
  {
    var x, y := a / r, m / r;
    assert x * r == a && y * r == m;
    DifferenceTimes(x, y, r);
    PositiveProduct(y - x, r);
    DifferenceTimes(y, x, r);
    OneProduct(x - y, r);
  }

  lemma ScaledClose(x: real, y: real, f: real)
    requires 0.0 <= x - y < 1.0 && 0.0 <= f <= 512.0
    ensures 0.0 <= x * f / 512.0 - y * f / 512.0 < 1.0
  {
    DifferenceTimes(x, y, f);
    Divided(x - y, f, x * f, y * f);
  }

  lemma Divided(z: real, f: real, p: real, q: real)
    requires z * f == p - q && 0.0 <= z < 1.0 && 0.0 <= f <= 512.0
    ensures 0.0 <= p / 512.0 - q / 512.0 < 1.0
  {
    PartProduct(z, f);
  }

  lemma OneProduct(z: real, r: real)
    requires r >= 1.0
    ensures z >= 1.0 ==> z * r >= 1.0
  {
    if z >= 1.0 {
      assert z * r - 1.0 == (z - 1.0) * r + (r - 1.0);
      assert (z - 1.0) * r >= 0.0;
    }
  }

  lemma PartProduct(z: real, f: real)
    requires 0.0 <= z < 1.0 && 0.0 <= f <= 512.0
    ensures 0.0 <= z * f < 512.0
  {
    if f > 0.0 {
      PositiveProduct(1.0 - z, f);
      DifferenceTimes(1.0, z, f);
    }
  }
}
