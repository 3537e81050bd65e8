/** Rounding, narrowing and quantising fixed-point values between formats
    (node/include/rund/compute/fixed.hpp). */
module FixedRounding {
  import opened Words

  datatype Rounding = TowardZero | Down | Up | NearestEven

  datatype Overflow = Saturate | Wrap

  datatype Format = Format(integerBits: nat, fractionBits: nat) {

    function Width(): nat {
      integerBits + fractionBits
    }

    predicate Stored() {
      1 <= integerBits <= 63 && 1 <= fractionBits <= 63 && (Width() == 32 || Width() == 64)
    }

    /** Raw values of this format. */
    predicate Holds(x: int)
      requires Width() > 0
    {
      0 - Pow2(Width() - 1) <= x < Pow2(Width() - 1)
    }
  }

  // ---------------------------------------------------------------- what rounding is

  /** q is the rational n / d rounded as the mode says. */
  predicate IsRounded(mode: Rounding, n: int, d: int, q: int)
    requires d > 0
  {
    match mode
    case TowardZero => if n >= 0 then q * d <= n < q * d + d else q * d - d < n <= q * d
    case Down => q * d <= n < q * d + d
    case Up => q * d - d < n <= q * d
    case NearestEven =>
      && 0 - d <= 2 * (n - q * d) <= d
      && (2 * (n - q * d) == d || 2 * (n - q * d) == 0 - d ==> q % 2 == 0)
  }

  lemma GapBetween(q: int, r: int, d: int)
    requires d > 0
    ensures q > r ==> q * d >= r * d + d
    ensures q > r + 1 ==> q * d >= r * d + 2 * d
  {
    MulMonotone(r + 1, q, d);
    MulMonotone(r + 2, q, d);
  }

  /** Rounding keeps order; so, with m == n, its result is unique. */
  lemma RoundedMonotone(mode: Rounding, m: int, n: int, d: int, q: int, r: int)
    requires d > 0 && m <= n && IsRounded(mode, m, d, q) && IsRounded(mode, n, d, r)
    ensures q <= r
  {
    GapBetween(q, r, d);
  }

  lemma ExactIsRounded(mode: Rounding, q: int, d: int)
    requires d > 0
    ensures IsRounded(mode, q * d, d, q)
  {
    MulMonotone(0, q, d);
    MulMonotone(q, -1, d);
  }

  // ------------------------------------------------------------- the two roundings

  /** What both forms add to the truncated quotient of the magnitudes. */
  function Bump(mode: Rounding, negative: bool, quotient: nat, remainder: nat, past: bool, half: bool): nat {
    var nearest := past || (half && quotient % 2 != 0);
    if || (mode == Down && negative && remainder != 0)
       || (mode == Up && !negative && remainder != 0)
       || (mode == NearestEven && nearest)
    then 1 else 0
  }

  function Quotient(m: nat, d: nat): nat
    requires d > 0
  {
    m / d
  }

  function Remainder(m: nat, d: nat): nat
    requires d > 0
  {
    m % d
  }

  function Signed(negative: bool, magnitude: nat): int {
    if negative then 0 - magnitude else magnitude
  }

  function RoundShiftRight(mode: Rounding, value: int, shift: nat): int {
    if shift == 0 then value
    else
      var negative, magnitude, halfway := value < 0, Magnitude(value), Pow2(shift - 1);
      var quotient, remainder := Quotient(magnitude, Pow2(shift)), Remainder(magnitude, Pow2(shift));
      Signed(negative, quotient + Bump(mode, negative, quotient, remainder, remainder > halfway, remainder == halfway))
  }

  function Saturated(width: nat, value: int): int
    requires width > 0
  {
    var high := Pow2(width - 1);
    if value < 0 - high then 0 - high else if value > high - 1 then high - 1 else value
  }

  function RoundedQuotient(mode: Rounding, negative: bool, m: nat, d: nat): int
    requires d > 0
  {
    var q, r := Quotient(m, d), Remainder(m, d);
    Signed(negative, q + Bump(mode, negative, q, r, r * 2 > d, r * 2 == d))
  }

  function RatioUnclamped(fractionBits: nat, numerator: int, denominator: int, mode: Rounding): int
    requires denominator != 0
  {
    RoundedQuotient(mode, (numerator < 0) != (denominator < 0),
                    Magnitude(numerator) * Pow2(fractionBits), Magnitude(denominator))
  }

  function FixedRatioRaw(width: nat, fractionBits: nat, numerator: int, denominator: int, mode: Rounding): int
    requires denominator != 0 && width > 0
  {
    Saturated(width, RatioUnclamped(fractionBits, numerator, denominator, mode))
  }

  /** `from_ratio`: a zero denominator is reported, not divided by. */
  function FromRatio(format: Format, numerator: int, denominator: int, mode: Rounding): Option<int>
    requires format.Stored()
  {
    if denominator == 0 then None
    else Some(FixedRatioRaw(format.Width(), format.fractionBits, numerator, denominator, mode))
  }

  lemma SignedScale(negative: bool, magnitude: nat, scale: nat)
    ensures Signed(negative, magnitude) * scale == Signed(negative, magnitude * scale)
  {
  }

  /** Rounding a non-negative number, given the two products it may come to. */
  lemma BumpRounds(mode: Rounding, negative: bool, magnitude: nat, d: nat, q: nat, r: nat, product: int)
    requires r < d && magnitude == product + r && product == q * d
    ensures var bump := Bump(mode, negative, q, r, 2 * r > d, 2 * r == d);
            && bump <= 1
            && (mode == TowardZero ==> bump == 0)
            && (mode == Down ==> bump == if negative && r != 0 then 1 else 0)
            && (mode == Up ==> bump == if !negative && r != 0 then 1 else 0)
            && (mode == NearestEven ==> bump == if 2 * r > d || (2 * r == d && q % 2 != 0) then 1 else 0)
            && Signed(negative, q + bump) * d == Signed(negative, product + bump * d)
            && (bump == 1 ==> bump * d == d)
  {
    var bump := Bump(mode, negative, q, r, 2 * r > d, 2 * r == d);
    SignedScale(negative, q + bump, d);
    assert (q + bump) * d == q * d + bump * d;
  }

  lemma BumpedIsRounded(mode: Rounding, negative: bool, magnitude: nat, d: nat, q: nat, r: nat)
    requires r < d && magnitude == q * d + r
    ensures IsRounded(mode, Signed(negative, magnitude), d,
                      Signed(negative, q + Bump(mode, negative, q, r, 2 * r > d, 2 * r == d)))
  {
    hide Bump;
    BumpRounds(mode, negative, magnitude, d, q, r, q * d);
  }

  lemma Divides(m: nat, d: nat)
    requires d > 0
    ensures m == Quotient(m, d) * d + Remainder(m, d) && Remainder(m, d) < d
  {
  }

  /** The shift divides by a power of two and rounds exactly as the mode says. */
  lemma ShiftRounds(mode: Rounding, value: int, shift: nat)
    ensures IsRounded(mode, value, Pow2(shift), RoundShiftRight(mode, value, shift))
  {
    if shift == 0 {
      ExactIsRounded(mode, value, 1);
    } else {
      var m, d := Magnitude(value), Pow2(shift);
      Divides(m, d);
      BumpedIsRounded(mode, value < 0, m, d, Quotient(m, d), Remainder(m, d));
    }
  }

  /** Numerator of the ratio over a positive denominator. */
  function OverPositive(fractionBits: nat, numerator: int, denominator: int): int {
    (if denominator < 0 then 0 - numerator else numerator) * Pow2(fractionBits)
  }

  lemma QuotientRounds(mode: Rounding, negative: bool, m: nat, d: nat)
    requires d > 0
    ensures IsRounded(mode, Signed(negative, m), d, RoundedQuotient(mode, negative, m, d))
  {
    Divides(m, d);
    BumpedIsRounded(mode, negative, m, d, Quotient(m, d), Remainder(m, d));
  }

  lemma RatioUnclampedRounds(fractionBits: nat, numerator: int, denominator: int, mode: Rounding)
    requires denominator != 0
    ensures IsRounded(mode, OverPositive(fractionBits, numerator, denominator), Magnitude(denominator),
                      RatioUnclamped(fractionBits, numerator, denominator, mode))
  {
    var negative := (numerator < 0) != (denominator < 0);
    QuotientRounds(mode, negative, Magnitude(numerator) * Pow2(fractionBits), Magnitude(denominator));
    SignedScale(negative, Magnitude(numerator), Pow2(fractionBits));
    assert Signed(negative, Magnitude(numerator)) == if denominator < 0 then 0 - numerator else numerator;
  }

  /** The ratio is the rational, rounded as the mode says and then saturated: any q
      that is the rounded rational gives the result. */
  lemma RatioRounds(format: Format, numerator: int, denominator: int, mode: Rounding, q: int)
    requires format.Stored() && denominator != 0
    requires IsRounded(mode, OverPositive(format.fractionBits, numerator, denominator), Magnitude(denominator), q)
    ensures FromRatio(format, numerator, denominator, mode) == Some(Saturated(format.Width(), q))
  {
    var n, d := OverPositive(format.fractionBits, numerator, denominator), Magnitude(denominator);
    var r := RatioUnclamped(format.fractionBits, numerator, denominator, mode);
    RatioUnclampedRounds(format.fractionBits, numerator, denominator, mode);
    RoundedMonotone(mode, n, n, d, q, r);
    RoundedMonotone(mode, n, n, d, r, q);
  }

  // ---------------------------------------------------------- narrowing and quantising

  function NarrowFixed(overflow: Overflow, width: nat, value: int): int
    requires width > 0
  {
    if overflow == Saturate then Saturated(width, value)
    else
      var bits := value % Pow2(width);
      if bits >= Pow2(width - 1) then bits - Pow2(width) else bits
  }

  function Rescaled(mode: Rounding, source: Format, target: Format, raw: int): int {
    if target.fractionBits > source.fractionBits then raw * Pow2(target.fractionBits - source.fractionBits)
    else RoundShiftRight(mode, raw, source.fractionBits - target.fractionBits)
  }

  function Quantize(mode: Rounding, overflow: Overflow, source: Format, target: Format, raw: int): int
    requires source.Stored() && target.Stored()
  {
    NarrowFixed(overflow, target.Width(), Rescaled(mode, source, target, raw))
  }

  lemma WrapMeans(half: nat, value: int, r: int)
    requires half > 0
    requires r == value % (2 * half) - if value % (2 * half) >= half then 2 * half else 0
    ensures 0 - half <= r < half && (value - r) % (2 * half) == 0
    ensures 0 - half <= value < half ==> r == value
  {
    var m, k := 2 * half, value / (2 * half);
    if value % m >= half {
      DivUnique(value - r, m, k + 1, 0);
    } else {
      DivUnique(value - r, m, k, 0);
    }
    if 0 - half <= value < half {
      var high := if value < 0 then -1 else 0;
      DivUnique(value, m, high, value - high * m);
    }
  }

  lemma WrapInFormat(target: Format, value: int)
    requires target.Stored()
    ensures var r := NarrowFixed(Wrap, target.Width(), value);
            && target.Holds(r) && (target.Holds(value) ==> r == value)
            && (value - r) % Pow2(target.Width()) == 0
  {
    WrapMeans(Pow2(target.Width() - 1), value, NarrowFixed(Wrap, target.Width(), value));
  }

  /** Narrowing lands in the format, keeps what already fits, and overflows the way it
      is told to: to the nearest end, or modulo the width. */
  lemma NarrowMeans(overflow: Overflow, target: Format, value: int)
    requires target.Stored()
    ensures var r := NarrowFixed(overflow, target.Width(), value);
            && target.Holds(r) && (target.Holds(value) ==> r == value)
            && (overflow == Wrap ==> (value - r) % Pow2(target.Width()) == 0)
            && (overflow == Saturate ==> forall x :: target.Holds(x) ==> (x <= value ==> x <= r) && (value <= x ==>
                  r <= x))
  {
    if overflow == Wrap {
      WrapInFormat(target, value);
    }
  }

  lemma ScaledUpFits(raw: int, scale: nat, bound: nat)
    requires Magnitude(raw) <= bound && scale <= bound
    ensures Magnitude(raw * scale) <= bound * bound
  {
    MulBoth(Magnitude(raw), bound, scale, bound);
    SignedScale(raw < 0, Magnitude(raw), scale);
  }

  lemma ShiftShrinks(mode: Rounding, value: int, shift: nat)
    ensures 0 - Magnitude(value) - 1 <= RoundShiftRight(mode, value, shift) <= Magnitude(value) + 1
  {
    if shift > 0 {
      QuotientShrinks(Magnitude(value), Pow2(shift));
    }
  }

  lemma QuotientShrinks(m: nat, d: nat)
    requires d > 0
    ensures Quotient(m, d) <= m
  {
    MulMonotone(1, d, Quotient(m, d));
    Divides(m, d);
  }

  lemma RoundedQuotientFits(mode: Rounding, negative: bool, m: nat, d: nat)
    requires d > 0
    ensures Magnitude(RoundedQuotient(mode, negative, m, d)) <= m + 1
  {
    QuotientShrinks(m, d);
  }

  /** For 64-bit operands every 128-bit intermediate of the ratio fits: the scaled
      numerator, twice the remainder, and the rounded quotient with either sign. */
  lemma RatioFits(format: Format, numerator: int, denominator: int, mode: Rounding)
    requires format.Stored() && denominator != 0
    requires 0 - TWO_64 / 2 <= numerator < TWO_64 / 2 && 0 - TWO_64 / 2 <= denominator < TWO_64 / 2
    ensures var scaled, d := Magnitude(numerator) * Pow2(format.fractionBits), Magnitude(denominator);
            && scaled <= TWO_128 / 4 && 2 * Remainder(scaled, d) <= TWO_64
            && Magnitude(RatioUnclamped(format.fractionBits, numerator, denominator, mode)) < TWO_128 / 2
  {
    hide RoundedQuotient;
    hide Remainder;
    var m, scale, d := Magnitude(numerator), Pow2(format.fractionBits), Magnitude(denominator);
    ScaleFits(format.fractionBits);
    MulBoth(m, TWO_64 / 2, scale, TWO_64 / 2);
    RoundedQuotientFits(mode, (numerator < 0) != (denominator < 0), m * scale, d);
    Divides(m * scale, d);
  }

  lemma RawFits(source: Format, raw: int)
    requires source.Stored() && source.Holds(raw)
    ensures Magnitude(raw) <= 0x8000_0000_0000_0000
  {
    Pow2Values();
    Pow2Monotone(source.Width() - 1, 63);
  }

  lemma ScaleFits(shift: nat)
    requires shift <= 63
    ensures Pow2(shift) <= 0x8000_0000_0000_0000
  {
    Pow2Values();
    Pow2Monotone(shift, 63);
  }

  /** The 128-bit intermediate stays below 2^127, so nothing overflows, negating
      included. */
  lemma RescaledFits(mode: Rounding, source: Format, target: Format, raw: int)
    requires source.Stored() && target.Stored() && source.Holds(raw)
    ensures Magnitude(Rescaled(mode, source, target, raw)) < 0x8000_0000_0000_0000_0000_0000_0000_0000
  {
    RawFits(source, raw);
    if target.fractionBits > source.fractionBits {
      var shift := target.fractionBits - source.fractionBits;
      ScaleFits(shift);
      ScaledUpFits(raw, Pow2(shift), 0x8000_0000_0000_0000);
    } else {
      ShiftShrinks(mode, raw, source.fractionBits - target.fractionBits);
    }
  }

  /** Rounding does not see a common factor. */
  lemma RoundedScales(mode: Rounding, n: int, d: int, factor: int, q: int)
    requires d > 0 && factor > 0 && d * factor > 0
    ensures IsRounded(mode, n * factor, d * factor, q) <==> IsRounded(mode, n, d, q)
  {
    assert q * (d * factor) == q * d * factor;
    RoundedGapScales(mode, n, d, q * d, n * factor, d * factor, q * d * factor, factor);
  }

  lemma RoundedGapScales(mode: Rounding, n: int, d: int, p: int, n': int, d': int, p': int, factor: int)
    requires factor > 0 && n' == n * factor && d' == d * factor && p' == p * factor
    ensures n' >= 0 <==> n >= 0
    ensures p' <= n' <==> p <= n
    ensures n' <= p' <==> n <= p
    ensures n' < p' + d' <==> n < p + d
    ensures p' - d' < n' <==> p - d < n
    ensures 0 - d' <= 2 * (n' - p') <==> 0 - d <= 2 * (n - p)
    ensures 2 * (n' - p') <= d' <==> 2 * (n - p) <= d
  {
    ScaledOrder(n, 0, factor);
    ScaledOrder(p, n, factor);
    ScaledOrder(n, p, factor);
    ScaledOrder(p + d, n, factor);
    ScaledOrder(n, p - d, factor);
    ScaledOrder(0 - d, 2 * (n - p), factor);
    ScaledOrder(2 * (n - p), d, factor);
    assert (p + d) * factor == p' + d' && (p - d) * factor == p' - d';
    assert (0 - d) * factor == 0 - d' && (2 * (n - p)) * factor == 2 * (n' - p');
  }

  lemma ScaledOrder(a: int, b: int, factor: int)
    requires factor > 0
    ensures a * factor <= b * factor <==> a <= b
    ensures a * factor == b * factor <==> a == b
  {
    MulMonotone(b + 1, a, factor);
    MulMonotone(a, b, factor);
    MulMonotone(a + 1, b, factor);
    assert (b + 1) * factor == b * factor + factor && (a + 1) * factor == a * factor + factor;
  }

  lemma ScaledUpIsExact(mode: Rounding, raw: int, d: nat, factor: nat)
    requires d > 0
    ensures IsRounded(mode, raw * (d * factor), d, raw * factor)
  {
    assert raw * (d * factor) == raw * factor * d;
    ExactIsRounded(mode, raw * factor, d);
  }

  /** Rescaling rounds the number itself, raw / 2^source, in the units of the target. */
  lemma RescaledRounds(mode: Rounding, source: Format, target: Format, raw: int)
    ensures IsRounded(mode, raw * Pow2(target.fractionBits), Pow2(source.fractionBits),
                      Rescaled(mode, source, target, raw))
  {
    hide IsRounded;
    hide RoundShiftRight;
    hide Pow2;
    var s, t := source.fractionBits, target.fractionBits;
    if t > s {
      Pow2Add(s, t - s);
      ScaledUpIsExact(mode, raw, Pow2(s), Pow2(t - s));
    } else {
      Pow2Add(s - t, t);
      ShiftRounds(mode, raw, s - t);
      RoundedScales(mode, raw, Pow2(s - t), Pow2(t), RoundShiftRight(mode, raw, s - t));
    }
  }

  /** Quantising is rounding the number as the mode says and then overflowing as the
      format says: whatever q is the rounded number, the result is q where it fits, and
      otherwise the nearest end or q modulo the width. */
  lemma QuantizeRounds(mode: Rounding, overflow: Overflow, source: Format, target: Format, raw: int, q: int)
    requires source.Stored() && target.Stored()
    requires IsRounded(mode, raw * Pow2(target.fractionBits), Pow2(source.fractionBits), q)
    ensures var r := Quantize(mode, overflow, source, target, raw);
            && target.Holds(r) && (target.Holds(q) ==> r == q)
            && (overflow == Wrap ==> (q - r) % Pow2(target.Width()) == 0)
            && (overflow == Saturate ==> forall x :: target.Holds(x) ==> (x <= q ==> x <= r) && (q <= x ==> r <= x))
  {
    var n, d, r := raw * Pow2(target.fractionBits), Pow2(source.fractionBits), Rescaled(mode, source, target, raw);
    RescaledRounds(mode, source, target, raw);
    RoundedMonotone(mode, n, n, d, q, r);
    RoundedMonotone(mode, n, n, d, r, q);
    NarrowMeans(overflow, target, r);
  }

  lemma RescaledMonotone(mode: Rounding, source: Format, target: Format, x: int, y: int)
    requires x <= y
    ensures Rescaled(mode, source, target, x) <= Rescaled(mode, source, target, y)
  {
    if target.fractionBits > source.fractionBits {
      MulMonotone(x, y, Pow2(target.fractionBits - source.fractionBits));
    } else {
      var shift := source.fractionBits - target.fractionBits;
      ShiftRounds(mode, x, shift);
      ShiftRounds(mode, y, shift);
      RoundedMonotone(mode, x, y, Pow2(shift), RoundShiftRight(mode, x, shift), RoundShiftRight(mode, y, shift));
    }
  }

  /** Saturating quantisation keeps order in every mode. */
  lemma QuantizeMonotone(mode: Rounding, source: Format, target: Format, x: int, y: int)
    requires source.Stored() && target.Stored() && x <= y
    ensures Quantize(mode, Saturate, source, target, x) <= Quantize(mode, Saturate, source, target, y)
  {
    RescaledMonotone(mode, source, target, x, y);
  }

  lemma ShiftBack(mode: Rounding, raw: int, shift: nat)
    ensures RoundShiftRight(mode, raw * Pow2(shift), shift) == raw
  {
    var scaled := raw * Pow2(shift);
    var r := RoundShiftRight(mode, scaled, shift);
    ShiftRounds(mode, scaled, shift);
    ExactIsRounded(mode, raw, Pow2(shift));
    RoundedMonotone(mode, scaled, scaled, Pow2(shift), r, raw);
    RoundedMonotone(mode, scaled, scaled, Pow2(shift), raw, r);
  }

  /** Going to a format with at least as many integer and fraction bits loses nothing:
      coming back, in any mode and with either overflow, gives the same value. */
  lemma WidenAndBack(mode: Rounding, back: Rounding, overflow: Overflow, returning: Overflow,
                     source: Format, wide: Format, raw: int)
    requires source.Stored() && wide.Stored() && source.Holds(raw)
    requires source.integerBits <= wide.integerBits && source.fractionBits <= wide.fractionBits
    ensures var widened := Quantize(mode, overflow, source, wide, raw);
            && widened == raw * Pow2(wide.fractionBits - source.fractionBits)
            && Quantize(back, returning, wide, source, widened) == raw
  {
    WideEnough(source, wide, raw);
    RescaleThereAndBack(mode, back, source, wide, raw);
    NarrowKeeps(overflow, wide, raw * Pow2(wide.fractionBits - source.fractionBits));
    NarrowKeeps(returning, source, raw);
  }

  lemma RescaleThereAndBack(mode: Rounding, back: Rounding, source: Format, wide: Format, raw: int)
    requires source.fractionBits <= wide.fractionBits
    ensures var scaled := raw * Pow2(wide.fractionBits - source.fractionBits);
            Rescaled(mode, source, wide, raw) == scaled && Rescaled(back, wide, source, scaled) == raw
  {
    ShiftBack(back, raw, wide.fractionBits - source.fractionBits);
    assert raw * Pow2(0) == raw;
  }

  lemma NarrowKeeps(overflow: Overflow, target: Format, value: int)
    requires target.Stored() && target.Holds(value)
    ensures NarrowFixed(overflow, target.Width(), value) == value
  {
    NarrowMeans(overflow, target, value);
  }

  lemma WideEnough(source: Format, wide: Format, raw: int)
    requires source.Stored() && wide.Stored() && source.Holds(raw)
    requires source.integerBits <= wide.integerBits && source.fractionBits <= wide.fractionBits
    ensures wide.Holds(raw * Pow2(wide.fractionBits - source.fractionBits))
  {
    var shift := wide.fractionBits - source.fractionBits;
    Pow2Add(source.Width() - 1, shift);
    Pow2Monotone(source.Width() - 1 + shift, wide.Width() - 1);
    ScaleRange(raw, Pow2(source.Width() - 1), Pow2(shift));
  }

  lemma ScaleRange(raw: int, high: nat, scale: nat)
    requires 0 - high <= raw < high && scale > 0
    ensures 0 - high * scale <= raw * scale < high * scale
  {
    MulMonotone(raw, high - 1, scale);
    MulMonotone(0 - high, raw, scale);
    assert (high - 1) * scale == high * scale - scale;
    assert (0 - high) * scale == 0 - high * scale;
  }
}
