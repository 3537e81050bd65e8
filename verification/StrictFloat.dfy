/** Integer building blocks of strict floating-point reduction: the sticky right
    shift, and taking IEEE 754 words apart and together (kernel/src/reduction/strict).
    Masks and shifts of disjoint fields are written as division and remainder. */
module StrictFloat {
  import opened Words

  // --------------------------------------------------------------- the sticky shift

  function OrLowBit(x: int, sticky: bool): int {
    if sticky && x % 2 == 0 then x + 1 else x
  }

  /** A quotient whose lowest bit remembers whether anything was cut off. */
  function Jam(value: nat, shift: nat): int {
    OrLowBit(value / Pow2(shift), value % Pow2(shift) != 0)
  }

  function ShiftRightJam128(value: u128, shift: nat): int {
    if shift == 0 then value
    else if shift >= 127 then (if value == 0 then 0 else 1)
    else Jam(value, shift)
  }

  /** One place at a time. */
  function JamOne(value: nat): nat {
    OrLowBit(value / 2, value % 2 != 0)
  }

  function Jammed(value: nat, shift: nat): nat {
    if shift == 0 then value else Jammed(JamOne(value), shift - 1)
  }

  /** Setting the lowest bit changes no higher quotient and leaves a remainder. */
  lemma OddQuotient(half: nat, s: nat)
    requires s > 0
    ensures var odd := half + 1 - half % 2;
            odd / Pow2(s) == half / Pow2(s) && odd % Pow2(s) != 0
  {
    var odd := half + 1 - half % 2;
    DivDiv(half, 2, Pow2(s - 1));
    DivDiv(odd, 2, Pow2(s - 1));
    assert odd / 2 == half / 2 && odd % 2 == 1;
  }

  /** A shift by s is a shift by one place and then by s - 1. */
  lemma JamSplits(value: nat, s: nat)
    requires s > 0
    ensures Jam(value, s) == Jam(JamOne(value), s - 1)
  {
    DivDiv(value, 2, Pow2(s - 1));
    if value % 2 == 1 && s > 1 {
      OddQuotient(value / 2, s - 1);
    }
  }

  lemma {:induction false} JamIsIterated(value: nat, s: nat)
    ensures Jam(value, s) == Jammed(value, s)
    decreases s
  {
    if s == 0 {
      DivUnique(value, 1, value, 0);
    } else {
      JamSplits(value, s);
      JamIsIterated(JamOne(value), s - 1);
    }
  }

  lemma {:induction false} JammedComposes(value: nat, a: nat, b: nat)
    ensures Jammed(Jammed(value, a), b) == Jammed(value, a + b)
    decreases a
  {
    if a > 0 {
      JammedComposes(JamOne(value), a - 1, b);
    }
  }

  lemma {:induction false} JammedMonotone(v: nat, w: nat, s: nat)
    requires v <= w
    ensures Jammed(v, s) <= Jammed(w, s)
    decreases s
  {
    if s > 0 {
      JammedMonotone(JamOne(v), JamOne(w), s - 1);
    }
  }

  lemma {:induction false} JammedShrinks(value: nat, s: nat)
    ensures Jammed(value, s) <= value
    decreases s
  {
    if s > 0 {
      JammedShrinks(JamOne(value), s - 1);
    }
  }

  lemma JamOneDecides(v: nat, m: nat)
    ensures JamOne(v) < 2 * m <==> v < 4 * m
    ensures JamOne(v) == 2 * m <==> v == 4 * m
  {
  }

  lemma Doubles(k: nat, s: nat)
    ensures s > 0 ==> k * Pow2(s) == 2 * (k * Pow2(s - 1))
    ensures s == 0 ==> k * Pow2(s) == k
  {
  }

  lemma {:induction false} JammedDecides(v: nat, s: nat, k: nat)
    ensures Jammed(v, s) < 2 * k <==> v < 2 * (k * Pow2(s))
    ensures Jammed(v, s) == 2 * k <==> v == 2 * (k * Pow2(s))
    decreases s
  {
    hide Pow2;
    hide JamOne;
    Doubles(k, s);
    if s > 0 {
      JammedDecides(JamOne(v), s - 1, k);
      JamOneDecides(v, k * Pow2(s - 1));
    }
  }

  /** The shortcut for long shifts gives what the shift itself would. */
  lemma ShortcutIsJam(value: u128, shift: nat)
    ensures ShiftRightJam128(value, shift) == Jam(value, shift)
  {
    if shift == 0 {
      DivUnique(value, 1, value, 0);
    } else if shift >= 127 {
      LongestShift(shift);
      LongShift(value, Pow2(shift));
    }
  }

  lemma LongestShift(shift: nat)
    requires shift >= 127
    ensures TWO_128 <= 2 * Pow2(shift)
  {
    Pow2Values();
    Pow2Add(64, 64);
    Pow2Monotone(127, shift);
    assert Pow2(128) == 2 * Pow2(127);
  }

  lemma ShiftIsIterated(value: u128, shift: nat)
    ensures ShiftRightJam128(value, shift) == Jammed(value, shift)
  {
    ShortcutIsJam(value, shift);
    JamIsIterated(value, shift);
  }

  /** Shifting by a and then by b is shifting by a + b, whichever of the three takes
      the shortcut. */
  lemma ShiftComposes(value: u128, a: nat, b: nat)
    ensures 0 <= ShiftRightJam128(value, a) < TWO_128
    ensures ShiftRightJam128(ShiftRightJam128(value, a), b) == ShiftRightJam128(value, a + b)
  {
    ShiftIsIterated(value, a);
    JammedShrinks(value, a);
    ShiftIsIterated(Jammed(value, a), b);
    ShiftIsIterated(value, a + b);
    JammedComposes(value, a, b);
  }

  lemma ShiftMonotone(v: u128, w: u128, s: nat)
    requires v <= w
    ensures ShiftRightJam128(v, s) <= ShiftRightJam128(w, s)
  {
    ShiftIsIterated(v, s);
    ShiftIsIterated(w, s);
    JammedMonotone(v, w, s);
  }

  /** What the low bit is for: against any even number the shifted value compares as
      the exact one does, so a later rounding cannot be misled. */
  lemma ShiftDecides(v: u128, s: nat, k: nat)
    ensures ShiftRightJam128(v, s) < 2 * k <==> v < 2 * (k * Pow2(s))
    ensures ShiftRightJam128(v, s) == 2 * k <==> v == 2 * (k * Pow2(s))
  {
    ShiftIsIterated(v, s);
    JammedDecides(v, s, k);
  }

  lemma LongShift(value: nat, p: nat)
    requires p > 0 && value < 2 * p
    ensures OrLowBit(value / p, value % p != 0) == if value == 0 then 0 else 1
  {
    if value < p {
      DivUnique(value, p, 0, value);
    } else {
      DivUnique(value, p, 1, value - p);
    }
  }

  // ------------------------------------------------------------------ words and fields

  /** The two formats differ in these numbers; the masks of the source are the fields
      they delimit. */
  datatype Format = Float32 | Float64 {

    function Fractions(): (r: nat)
      ensures r > 0
    {
      if Float32? then 0x80_0000 else 0x10_0000_0000_0000
    }

    function ExponentMax(): nat {
      if Float32? then 0xFF else 0x7FF
    }

    function Bias(): nat {
      if Float32? then 127 else 1023
    }

    /** Words below the sign bit. */
    function Magnitudes(): (r: nat)
      ensures r == Fractions() * (ExponentMax() + 1)
    {
      if Float32? then 0x8000_0000 else 0x8000_0000_0000_0000
    }
  }

  function RawExponent(bits: nat, f: Format): nat {
    bits / f.Fractions() % (f.ExponentMax() + 1)
  }

  function Fraction(bits: nat, f: Format): (r: nat)
    ensures r < f.Fractions()
  {
    bits % f.Fractions()
  }

  datatype Decoded = Decoded(sign: bool, zero: bool, inf: bool, nan: bool, exponent: int, mantissa: nat)

  function Decode(bits: u64, f: Format): Decoded {
    var raw, fraction, sign := RawExponent(bits, f), Fraction(bits, f), bits / f.Magnitudes() % 2 == 1;
    if raw == f.ExponentMax() then Decoded(sign, false, fraction == 0, fraction != 0, 0, 0)
    else if raw == 0 then Decoded(sign, fraction == 0, false, false, 1 - f.Bias(), fraction)
    else Decoded(sign, false, false, false, raw - f.Bias(), f.Fractions() + fraction)
  }

  function Compose(sign: bool, raw: int, fraction: nat, f: Format): int {
    (if sign then f.Magnitudes() else 0) + raw * f.Fractions() + fraction % f.Fractions()
  }

  function Infinity(sign: bool, f: Format): int {
    Compose(sign, f.ExponentMax(), 0, f)
  }

  function Zero(sign: bool, f: Format): int {
    Compose(sign, 0, 0, f)
  }

  predicate IsWord(bits: nat, f: Format) {
    bits < 2 * f.Magnitudes()
  }

  predicate Finite(bits: nat, f: Format) {
    IsWord(bits, f) && RawExponent(bits, f) != f.ExponentMax()
  }

  /** The fields of a word put together again. */
  lemma FieldsCompose(bits: nat, f: Format)
    requires IsWord(bits, f)
    ensures Compose(bits / f.Magnitudes() % 2 == 1, RawExponent(bits, f), Fraction(bits, f), f) == bits
  {
  }

  lemma FieldsUnique(bits: nat, sign: nat, raw: nat, fraction: nat, fractions: nat, exponents: nat)
    requires sign < 2 && raw < exponents && fraction < fractions
    requires bits == (sign * exponents + raw) * fractions + fraction
    ensures bits / fractions % exponents == raw && bits % fractions == fraction
          && bits / (fractions * exponents) == sign
  {
    DivUnique(bits, fractions, sign * exponents + raw, fraction);
    DivUnique(sign * exponents + raw, exponents, sign, raw);
    DivDiv(bits, fractions, exponents);
  }

  lemma ComposedFields(sign: bool, raw: nat, fraction: nat, f: Format)
    requires raw <= f.ExponentMax() && fraction < f.Fractions()
    ensures var bits := Compose(sign, raw, fraction, f);
            && IsWord(bits, f) && RawExponent(bits, f) == raw && Fraction(bits, f) == fraction
            && (bits / f.Magnitudes() % 2 == 1 <==> sign)
  {
    FieldsUnique(Compose(sign, raw, fraction, f), if sign then 1 else 0, raw, fraction, f.Fractions(),
          f.ExponentMax() + 1);
  }

  lemma MantissaSplits(fraction: nat, f: Format)
    requires fraction < f.Fractions()
    ensures (f.Fractions() + fraction) % f.Fractions() == fraction
  {
    DivUnique(f.Fractions() + fraction, f.Fractions(), 1, fraction);
  }

  /** The exponent field, read back from a decoded word: the leading bit of the
      mantissa says whether it was zero. */
  function FieldOf(d: Decoded, f: Format): int {
    if d.mantissa < f.Fractions() then 0 else d.exponent + f.Bias()
  }

  lemma DecodedFields(bits: u64, f: Format)
    requires Finite(bits, f)
    ensures var d := Decode(bits, f);
            && FieldOf(d, f) == RawExponent(bits, f) && d.mantissa % f.Fractions() == Fraction(bits, f)
            && 1 - f.Bias() <= d.exponent < f.ExponentMax() - f.Bias() && d.mantissa < 2 * f.Fractions()
  {
    MantissaSplits(Fraction(bits, f), f);
  }

  /** A finite word is recovered from its sign, exponent and mantissa. */
  lemma DecodeLosesNothing(bits: u64, f: Format)
    requires Finite(bits, f)
    ensures var d := Decode(bits, f);
            && !d.inf && !d.nan && (d.zero <==> d.mantissa == 0)
            && bits == Compose(d.sign, FieldOf(d, f), d.mantissa, f)
  {
    DecodedFields(bits, f);
    FieldsCompose(bits, f);
    assert Compose(Decode(bits, f).sign, RawExponent(bits, f), Fraction(bits, f), f) == bits;
  }

  /** The other way: composing and decoding. */
  lemma ComposeDecodes(sign: bool, raw: nat, fraction: nat, f: Format)
    requires raw <= f.ExponentMax() && fraction < f.Fractions()
    ensures Compose(sign, raw, fraction, f) < TWO_64
    ensures Decode(Compose(sign, raw, fraction, f), f) ==
            if raw == f.ExponentMax() then Decoded(sign, false, fraction == 0, fraction != 0, 0, 0)
            else Decoded(sign, raw == 0 && fraction == 0, false, false,
                         Max(raw, 1) - f.Bias(), if raw == 0 then fraction else f.Fractions() + fraction)
  {
    ComposedFields(sign, raw, fraction, f);
  }

  /** The two special words decode to what they stand for. */
  lemma SpecialWordsDecode(sign: bool, f: Format)
    ensures 0 <= Infinity(sign, f) < TWO_64 && 0 <= Zero(sign, f) < TWO_64
    ensures Decode(Infinity(sign, f), f) == Decoded(sign, false, true, false, 0, 0)
    ensures Decode(Zero(sign, f), f) == Decoded(sign, true, false, false, 1 - f.Bias(), 0)
  {
    ComposeDecodes(sign, f.ExponentMax(), 0, f);
    ComposeDecodes(sign, 0, 0, f);
  }

  // ------------------------------------------------------------------- order of words

  /** The value of a finite word in units of the smallest positive one. */
  function Scaled(d: Decoded, f: Format): nat
    requires d.exponent >= 1 - f.Bias()
  {
    d.mantissa * Pow2(d.exponent - (1 - f.Bias()))
  }

  /** The same, from the fields. */
  function ScaledFields(raw: nat, fraction: nat, f: Format): nat {
    if raw == 0 then fraction else (f.Fractions() + fraction) * Pow2(raw - 1)
  }

  lemma ScaledByFields(bits: u64, f: Format)
    requires Finite(bits, f)
    ensures Decode(bits, f).exponent >= 1 - f.Bias()
    ensures Scaled(Decode(bits, f), f) == ScaledFields(RawExponent(bits, f), Fraction(bits, f), f)
  {
    assert Fraction(bits, f) * Pow2(0) == Fraction(bits, f);
  }

  lemma NextExponentLarger(r: nat, x: nat, y: nat, f: Format)
    requires x < f.Fractions()
    ensures ScaledFields(r, x, f) < ScaledFields(r + 1, y, f)
  {
    MulMonotone(f.Fractions(), f.Fractions() + y, Pow2(r));
    if r > 0 {
      var q := Pow2(r - 1);
      MulMonotone(f.Fractions() + x, 2 * f.Fractions() - 1, q);
      assert (2 * f.Fractions() - 1) * q == f.Fractions() * (2 * q) - q;
    }
  }

  lemma ScaledDoubles(s: nat, y: nat, f: Format)
    requires s >= 2
    ensures ScaledFields(s, y, f) == 2 * ScaledFields(s - 1, y, f)
  {
    assert Pow2(s - 1) == 2 * Pow2(s - 2);
  }

  /** Everything with a smaller exponent field is smaller. */
  lemma {:induction false} SmallerExponentSmaller(r: nat, x: nat, s: nat, y: nat, f: Format)
    requires r < s && x < f.Fractions() && y < f.Fractions()
    ensures ScaledFields(r, x, f) < ScaledFields(s, y, f)
    decreases s
  {
    if r + 1 == s {
      NextExponentLarger(r, x, y, f);
    } else {
      SmallerExponentSmaller(r, x, s - 1, y, f);
      ScaledDoubles(s, y, f);
    }
  }

  lemma SmallerFractionSmaller(r: nat, x: nat, y: nat, f: Format)
    requires x < y
    ensures ScaledFields(r, x, f) < ScaledFields(r, y, f)
  {
    if r > 0 {
      MulMonotone(f.Fractions() + x, f.Fractions() + y - 1, Pow2(r - 1));
      assert (f.Fractions() + y - 1) * Pow2(r - 1) == (f.Fractions() + y) * Pow2(r - 1) - Pow2(r - 1);
    }
  }

  lemma FieldOrder(a: nat, b: nat, f: Format)
    requires a < b < f.Magnitudes()
    ensures RawExponent(a, f) < RawExponent(b, f)
         || (RawExponent(a, f) == RawExponent(b, f) && Fraction(a, f) < Fraction(b, f))
  {
  }

  /** Among finite words without the sign, bit order is numeric order. */
  lemma BitOrderIsNumericOrder(a: u64, b: u64, f: Format)
    requires Finite(a, f) && Finite(b, f) && a < f.Magnitudes() && b < f.Magnitudes()
    ensures Decode(a, f).exponent >= 1 - f.Bias() && Decode(b, f).exponent >= 1 - f.Bias()
    ensures a < b <==> Scaled(Decode(a, f), f) < Scaled(Decode(b, f), f)
  {
    ScaledByFields(a, f);
    ScaledByFields(b, f);
    if a < b {
      WordOrder(a, b, f);
    } else if b < a {
      WordOrder(b, a, f);
    }
  }

  lemma WordOrder(a: nat, b: nat, f: Format)
    requires a < b < f.Magnitudes()
    ensures ScaledFields(RawExponent(a, f), Fraction(a, f), f) < ScaledFields(RawExponent(b, f), Fraction(b, f), f)
  {
    FieldOrder(a, b, f);
    if RawExponent(a, f) < RawExponent(b, f) {
      SmallerExponentSmaller(RawExponent(a, f), Fraction(a, f), RawExponent(b, f), Fraction(b, f), f);
    } else {
      SmallerFractionSmaller(RawExponent(a, f), Fraction(a, f), Fraction(b, f), f);
    }
  }

  /** One, minus two, the least positive number and the largest finite one, in both
      formats: mantissa times two to the exponent, less the 23 or 52 fraction bits. */
  lemma KnownWords()
    ensures Decode(0x3F80_0000, Float32) == Decoded(false, false, false, false, 0, 0x80_0000)
    ensures Decode(0xC000_0000, Float32) == Decoded(true, false, false, false, 1, 0x80_0000)
    ensures Decode(1, Float32) == Decoded(false, false, false, false, -126, 1)
    ensures Decode(0x7F7F_FFFF, Float32) == Decoded(false, false, false, false, 127, 0xFF_FFFF)
    ensures Decode(0x3FF0_0000_0000_0000, Float64) == Decoded(false, false, false, false, 0, 0x10_0000_0000_0000)
    ensures Decode(0xC000_0000_0000_0000, Float64) == Decoded(true, false, false, false, 1, 0x10_0000_0000_0000)
    ensures Decode(1, Float64) == Decoded(false, false, false, false, -1022, 1)
    ensures Decode(0x7FEF_FFFF_FFFF_FFFF, Float64)
         == Decoded(false, false, false, false, 1023, 0x1F_FFFF_FFFF_FFFF)
  {
  }
}
