/** The vector forms of the fixed-point operations, one lane at a time, and their
    agreement with the scalar forms (math64/include/math64/fixed/lane.hpp,
    math32/include/math32/fixed/lane.hpp and the wide/lane.hpp beside each). */
module FixedLane {
  import opened Words
  import opened FixedPoint

  // ------------------------------------------------------ products from half words

  /** Words are two digits of this base: 2^32 in the 64-bit header, 2^16 in the
      32-bit one. All sums and products wrap at base squared. */
  function HalfBase(w: Width): (r: nat)
    ensures r >= 4
  {
    if w == W64 then 0x1_0000_0000 else 0x1_0000
  }

  function High(base: nat, x: nat): nat
    requires base > 0
  {
    x / base
  }

  function Low(base: nat, x: nat): (r: nat)
    requires base > 0
    ensures r < base
  {
    x % base
  }

  function Wrap(base: nat, x: nat): nat
    requires base > 0
  {
    x % (base * base)
  }

  datatype Partials = Partials(p0: nat, p1: nat, p2: nat, p3: nat)

  function PartialsOf(base: nat, a: nat, b: nat): Partials
    requires base > 0
  {
    Partials(Wrap(base, Low(base, a) * Low(base, b)), Wrap(base, Low(base, a) * High(base, b)),
             Wrap(base, High(base, a) * Low(base, b)), Wrap(base, High(base, a) * High(base, b)))
  }

  function Carry(base: nat, p: Partials): nat
    requires base > 0
  {
    Wrap(base, High(base, p.p0) + Low(base, p.p1) + Low(base, p.p2))
  }

  function HighOf(base: nat, p: Partials): nat
    requires base > 0
  {
    Wrap(base, p.p3 + High(base, p.p1) + High(base, p.p2) + High(base, Carry(base, p)))
  }

  function MulUnsignedHigh(w: Width, a: nat, b: nat): nat {
    HighOf(HalfBase(w), PartialsOf(HalfBase(w), a, b))
  }

  /** The 64-bit word of the product from bit 63 up. The lowest bit is or-ed into a
      doubled word, so it is added here. */
  function MulUnsignedShift63(a: u64, b: u64): nat {
    var p := PartialsOf(HalfBase(W64), a, b);
    HighOf(HalfBase(W64), p) * 2 % TWO_64 + Carry(HalfBase(W64), p) / 0x8000_0000 % 2
  }

  lemma Digits(base: nat, x: nat)
    requires base > 0 && x < base * base
    ensures x == High(base, x) * base + Low(base, x) && High(base, x) < base
  {
    MulMonotone(base, High(base, x), base);
  }

  lemma Stays(base: nat, x: nat)
    requires base > 0 && x < base * base
    ensures Wrap(base, x) == x
  {
    DivUnique(x, base * base, 0, x);
  }

  lemma DigitProduct(base: nat, x: nat, y: nat)
    requires x < base && y < base
    ensures x * y < base * base && Wrap(base, x * y) == x * y
  {
    MulBoth(x, base - 1, y, base - 1);
    assert (base - 1) * (base - 1) < base * base;
    Stays(base, x * y);
  }

  lemma Expand(base: nat, a1: nat, a0: nat, b1: nat, b0: nat)
    ensures (a1 * base + a0) * (b1 * base + b0) == (a1 * b1 * base + a0 * b1 + a1 * b0) * base + a0 * b0
  {
    var x, y := a1 * base, b1 * base;
    assert (x + a0) * (y + b0) == x * y + x * b0 + a0 * y + a0 * b0;
    assert x * y == a1 * b1 * base * base by {
      assert x * y == a1 * (base * y) && base * y == base * b1 * base;
      assert a1 * (base * b1 * base) == a1 * b1 * base * base;
    }
    assert x * b0 == a1 * b0 * base;
    assert a0 * y == a0 * b1 * base;
  }

  /** The four partial products, weighted, are the product. */
  lemma PartialsSum(base: nat, a: nat, b: nat)
    requires base > 0 && a < base * base && b < base * base
    ensures var p := PartialsOf(base, a, b);
            && a * b == (p.p3 * base + p.p1 + p.p2) * base + p.p0
            && p.p0 < base * base && p.p1 < base * base && p.p2 < base * base
  {
    Digits(base, a);
    Digits(base, b);
    var a1, a0, b1, b0 := High(base, a), Low(base, a), High(base, b), Low(base, b);
    DigitProduct(base, a0, b0);
    DigitProduct(base, a0, b1);
    DigitProduct(base, a1, b0);
    DigitProduct(base, a1, b1);
    Expand(base, a1, a0, b1, b0);
  }

  lemma Gather(base: nat, s: nat, r: nat, q0: nat, r0: nat, qc: nat, rc: nat)
    requires q0 + r == qc * base + rc
    ensures (s * base + r) * base + (q0 * base + r0) == (s + qc) * (base * base) + (rc * base + r0)
  {
    assert (s * base + r) * base == s * (base * base) + r * base;
    assert (qc * base + rc) * base == qc * (base * base) + rc * base;
    assert (q0 + r) * base == q0 * base + r * base;
    assert (s + qc) * (base * base) == s * (base * base) + qc * (base * base);
  }

  lemma Regroup(base: nat, p3: nat, q1: nat, r1: nat, q2: nat, r2: nat)
    ensures p3 * base + (q1 * base + r1) + (q2 * base + r2) == (p3 + q1 + q2) * base + (r1 + r2)
  {
  }

  lemma LowPart(base: nat, digit: nat, rest: nat)
    requires digit < base && rest < base
    ensures digit * base + rest < base * base
  {
    MulMonotone(digit, base - 1, base);
    assert (base - 1) * base + base == base * base;
  }

  lemma CarryFits(base: nat, x: nat, y: nat, z: nat)
    requires base >= 4 && x < base && y < base && z < base
    ensures x + y + z < base * base
  {
    MulMonotone(4, base, base);
  }

  lemma ProductFits(word: nat, a: nat, b: nat, h: nat, low: nat)
    requires a < word && b < word && a * b == h * word + low
    ensures h < word && h % word == h
  {
    MulBoth(a, word - 1, b, word - 1);
    assert (word - 1) * (word - 1) < word * word;
    MulMonotone(word, h, word);
    DivUnique(h, word, 0, h);
  }

  lemma SplitPartials(base: nat, p: Partials, c: nat)
    requires base >= 4 && p.p0 < base * base && p.p1 < base * base && p.p2 < base * base
    requires c == High(base, p.p0) + Low(base, p.p1) + Low(base, p.p2)
    ensures c < base * base
    ensures (p.p3 * base + p.p1 + p.p2) * base + p.p0
         == (p.p3 + High(base, p.p1) + High(base, p.p2) + High(base, c)) * (base * base)
            + (Low(base, c) * base + Low(base, p.p0))
  {
    Digits(base, p.p0);
    Digits(base, p.p1);
    Digits(base, p.p2);
    var q1, q2, r1, r2 := High(base, p.p1), High(base, p.p2), Low(base, p.p1), Low(base, p.p2);
    CarryFits(base, High(base, p.p0), r1, r2);
    Digits(base, c);
    Regroup(base, p.p3, q1, r1, q2, r2);
    Gather(base, p.p3 + q1 + q2, r1 + r2, High(base, p.p0), Low(base, p.p0), High(base, c), Low(base, c));
  }

  lemma CarryExact(base: nat, p: Partials)
    requires base >= 4 && p.p0 < base * base
    ensures Carry(base, p) == High(base, p.p0) + Low(base, p.p1) + Low(base, p.p2)
  {
    Digits(base, p.p0);
    CarryFits(base, High(base, p.p0), Low(base, p.p1), Low(base, p.p2));
    Stays(base, High(base, p.p0) + Low(base, p.p1) + Low(base, p.p2));
  }

  lemma AssembleDigits(base: nat, a: nat, b: nat, p: Partials)
    requires base >= 4 && a < base * base && b < base * base
    requires p.p0 < base * base && p.p1 < base * base && p.p2 < base * base
    requires a * b == (p.p3 * base + p.p1 + p.p2) * base + p.p0
    ensures var low := Low(base, Carry(base, p)) * base + Low(base, p.p0);
            && low < base * base
            && a * b == HighOf(base, p) * (base * base) + low
            && HighOf(base, p) < base * base
  {
    CarryExact(base, p);
    SplitPartials(base, p, Carry(base, p));
    LowPart(base, Low(base, Carry(base, p)), Low(base, p.p0));
    var h := p.p3 + High(base, p.p1) + High(base, p.p2) + High(base, Carry(base, p));
    ProductFits(base * base, a, b, h, Low(base, Carry(base, p)) * base + Low(base, p.p0));
    assert HighOf(base, p) == h % (base * base);
  }

  /** High word, middle digit and low digit of the product. */
  lemma ProductDigits(base: nat, a: nat, b: nat)
    requires base >= 4 && a < base * base && b < base * base
    ensures var p := PartialsOf(base, a, b);
            var low := Low(base, Carry(base, p)) * base + Low(base, p.p0);
            && low < base * base
            && a * b == HighOf(base, p) * (base * base) + low
            && HighOf(base, p) < base * base
  {
    PartialsSum(base, a, b);
    AssembleDigits(base, a, b, PartialsOf(base, a, b));
  }

  /** The high word is the product shifted down by one word. */
  lemma HighIsExact(w: Width, a: nat, b: nat)
    requires a < HalfBase(w) * HalfBase(w) && b < HalfBase(w) * HalfBase(w)
    ensures MulUnsignedHigh(w, a, b) == a * b / (HalfBase(w) * HalfBase(w))
  {
    var base := HalfBase(w);
    var p := PartialsOf(base, a, b);
    ProductDigits(base, a, b);
    DivUnique(a * b, base * base, HighOf(base, p), Low(base, Carry(base, p)) * base + Low(base, p.p0));
  }

  /** The other word is the product shifted down by 63 bits. */
  lemma Shift63IsExact(a: u64, b: u64)
    ensures MulUnsignedShift63(a, b) == a * b / Scale(W64) % TWO_64
  {
    var base := HalfBase(W64);
    var p := PartialsOf(base, a, b);
    ProductDigits(base, a, b);
    var high, middle, low := HighOf(base, p), Low(base, Carry(base, p)), Low(base, p.p0);
    TopBit(middle, low);
    var rest := (middle * 0x1_0000_0000 + low) % Scale(W64);
    DivUnique(a * b, Scale(W64), high * 2 + middle / 0x8000_0000, rest);
    LowBit(high, middle / 0x8000_0000);
    CarryBit(Carry(base, p));
  }

  lemma TopBit(middle: nat, low: nat)
    requires middle < 0x1_0000_0000 && low < 0x1_0000_0000
    ensures (middle * 0x1_0000_0000 + low) / Scale(W64) == middle / 0x8000_0000 < 2
  {
  }

  lemma LowBit(high: nat, bit: nat)
    requires high < TWO_64 && bit < 2
    ensures (high * 2 + bit) % TWO_64 == high * 2 % TWO_64 + bit
  {
  }

  lemma CarryBit(carry: nat)
    ensures carry / 0x8000_0000 % 2 == carry % 0x1_0000_0000 / 0x8000_0000
  {
  }

  // --------------------------------------------------------- signed multiplication

  /** ClampSignedMagnitude64 and ClampSignedMagnitude128. */
  function ClampMagnitude(w: Width, negative: bool, magnitude: nat): int {
    if negative then (if magnitude >= Scale(w) then FixedMin(w) else 0 - magnitude)
    else Min(magnitude, FixedMax(w))
  }

  function LaneMulFixed64(a: int, b: int): int
    requires IsFixed(W64, a) && IsFixed(W64, b)
  {
    ClampMagnitude(W64, (a < 0) != (b < 0), MulUnsignedShift63(Magnitude(a), Magnitude(b)))
  }

  function LaneMulFixedScaled64(value: int, coefficient: u64): int
    requires IsFixed(W64, value)
  {
    ClampMagnitude(W64, value < 0, MulUnsignedShift63(Magnitude(value), coefficient))
  }

  /** An arithmetic shift rounds down; one is added back for a negative remainder. */
  function DivFixedScale(product: int): int {
    product / Scale(W32) + if product < 0 && product % Scale(W32) != 0 then 1 else 0
  }

  function LaneMulFixed32(a: int, b: int): int {
    Clamp(W32, DivFixedScale(a * b))
  }

  function LaneMulFixedScaled32(value: int, coefficient: u32): int {
    Clamp(W32, DivFixedScale(value * coefficient))
  }

  function LaneMulFixed(w: Width, a: int, b: int): int
    requires IsFixed(w, a) && IsFixed(w, b)
  {
    if w == W64 then LaneMulFixed64(a, b) else LaneMulFixed32(a, b)
  }

  function LaneMulAddFixed(w: Width, a: int, b: int, addend: int): int
    requires IsFixed(w, a) && IsFixed(w, b)
  {
    Clamp(w, LaneMulFixed(w, a, b) + addend)
  }

  /** ScalarMulFixedScaled. At 32 bits the quotient is narrowed to 64 bits before the
      clamp, which is why its coefficient is kept to 32 bits here. */
  function MulFixedScaled(w: Width, value: int, coefficient: nat): int {
    Clamp(w, TruncDiv(value * coefficient, Scale(w)))
  }

  lemma ClampMagnitudeIsClamp(w: Width, negative: bool, magnitude: nat)
    ensures ClampMagnitude(w, negative, magnitude) == Clamp(w, if negative then 0 - magnitude else magnitude)
  {
  }

  lemma NegateProduct(a: int, b: int)
    ensures (0 - a) * b == 0 - a * b && a * (0 - b) == 0 - a * b && (0 - a) * (0 - b) == a * b
  {
  }

  lemma SignOfProduct(a: int, b: int)
    ensures Magnitude(a * b) == Magnitude(a) * Magnitude(b)
    ensures a * b < 0 ==> (a < 0) != (b < 0)
    ensures a * b > 0 ==> (a < 0) == (b < 0)
  {
    NegateProduct(a, b);
    MulMonotone(0, Magnitude(a), Magnitude(b));
  }

  /** Dividing magnitudes and putting the sign back is division toward zero. */
  lemma QuotientOfMagnitudes(n: int, d: int, negative: bool)
    requires d != 0 && (n != 0 ==> negative == ((n < 0) != (d < 0)))
    ensures TruncDiv(n, d) == if negative then 0 - Magnitude(n) / Magnitude(d) else Magnitude(n) / Magnitude(d)
  {
    if n == 0 {
      DivUnique(0, Magnitude(d), 0, 0);
    }
  }

  lemma ProductBelow(a: nat, b: nat)
    requires a <= Scale(W64) && b < TWO_64
    ensures a * b / Scale(W64) % TWO_64 == a * b / Scale(W64)
  {
    MulBoth(a, Scale(W64), b, TWO_64 - 1);
    DivMonotone(a * b, Scale(W64) * (TWO_64 - 1), Scale(W64));
  }

  lemma Shift63OfMagnitudes(a: nat, b: nat)
    requires a <= Scale(W64) && b < TWO_64
    ensures MulUnsignedShift63(a, b) == a * b / Scale(W64)
  {
    ProductBelow(a, b);
    Shift63IsExact(a, b);
  }

  lemma SignedQuotient(w: Width, a: int, b: int, negative: bool, magnitude: nat)
    requires negative == ((a < 0) != (b < 0)) && magnitude == Magnitude(a) * Magnitude(b) / Scale(w)
    ensures ClampMagnitude(w, negative, magnitude) == Clamp(w, TruncDiv(a * b, Scale(w)))
  {
    SignOfProduct(a, b);
    QuotientOfMagnitudes(a * b, Scale(w), negative);
    ClampMagnitudeIsClamp(w, negative, magnitude);
  }

  lemma Lane64Agrees(a: int, b: int, negative: bool)
    requires Magnitude(a) <= Scale(W64) && Magnitude(b) < TWO_64 && negative == ((a < 0) != (b < 0))
    ensures ClampMagnitude(W64, negative, MulUnsignedShift63(Magnitude(a), Magnitude(b)))
         == Clamp(W64, TruncDiv(a * b, Scale(W64)))
  {
    Shift63OfMagnitudes(Magnitude(a), Magnitude(b));
    SignedQuotient(W64, a, b, negative, MulUnsignedShift63(Magnitude(a), Magnitude(b)));
  }

  lemma ShiftIsTruncation(product: int)
    ensures DivFixedScale(product) == TruncDiv(product, Scale(W32))
  {
  }

  /** On every input the lanes multiply as the scalar form does. */
  lemma LaneMulIsScalar(w: Width, a: int, b: int)
    requires IsFixed(w, a) && IsFixed(w, b)
    ensures LaneMulFixed(w, a, b) == MulFixed(w, a, b)
  {
    if w == W64 {
      Lane64Agrees(a, b, (a < 0) != (b < 0));
    } else {
      ShiftIsTruncation(a * b);
    }
  }

  lemma LaneMulScaledIsScalar(value: int, coefficient: nat)
    ensures IsFixed(W64, value) && coefficient < TWO_64 ==>
              LaneMulFixedScaled64(value, coefficient) == MulFixedScaled(W64, value, coefficient)
    ensures IsFixed(W32, value) && coefficient < TWO_32 ==>
              LaneMulFixedScaled32(value, coefficient) == MulFixedScaled(W32, value, coefficient)
  {
    if IsFixed(W64, value) && coefficient < TWO_64 {
      Lane64Agrees(value, coefficient, value < 0);
    }
    ShiftIsTruncation(value * coefficient);
  }

  /** A scaled product too is the product toward zero or the nearest number in range. */
  lemma ScaledProductMeans(w: Width, value: int, coefficient: nat, q: int)
    requires coefficient < (if w == W32 then TWO_32 else TWO_64)
    requires IsTruncated(value * coefficient, Scale(w), q)
    ensures IsNearest(w, q, MulFixedScaled(w, value, coefficient))
  {
    TruncatedQuotient(value * coefficient, Scale(w), q);
  }

  // ------------------------------------------------------------- multiply and add

  /** Only the square of -1 leaves the range before the addend is applied. */
  lemma OnlyMinusOneSquaredOverflows(w: Width, a: int, b: int)
    requires IsFixed(w, a) && IsFixed(w, b)
    ensures var term := TruncDiv(a * b, Scale(w));
            if a == FixedMin(w) && b == FixedMin(w) then term == Scale(w) else IsFixed(w, term)
  {
    var scale, m, n := Scale(w), Magnitude(a), Magnitude(b);
    SignOfProduct(a, b);
    QuotientOfMagnitudes(a * b, scale, (a < 0) != (b < 0));
    MulBoth(m, scale, n, scale);
    DivMonotone(m * n, scale * scale, scale);
    DivUnique(scale * scale, scale, scale, 0);
    if m < scale {
      MulBoth(m, scale - 1, n, scale);
      DivMonotone(m * n, (scale - 1) * scale, scale);
      DivUnique((scale - 1) * scale, scale, scale - 1, 0);
    } else if n < scale {
      MulBoth(m, scale, n, scale - 1);
      DivMonotone(m * n, scale * (scale - 1), scale);
      DivUnique(scale * (scale - 1), scale, scale - 1, 0);
    }
  }

  /** The lanes saturate the product before adding, the scalar form does not. The two
      differ exactly when both factors are -1 and the addend is negative, and then
      the scalar result is one unit higher. */
  lemma LaneMulAddAgreesIff(w: Width, a: int, b: int, addend: int)
    requires IsFixed(w, a) && IsFixed(w, b) && IsFixed(w, addend)
    ensures LaneMulAddFixed(w, a, b, addend) == MulAddFixed(w, a, b, addend)
       <==> !(a == FixedMin(w) && b == FixedMin(w) && addend < 0)
    ensures a == FixedMin(w) && b == FixedMin(w) && addend < 0 ==>
              MulAddFixed(w, a, b, addend) == LaneMulAddFixed(w, a, b, addend) + 1
  {
    LaneMulIsScalar(w, a, b);
    OnlyMinusOneSquaredOverflows(w, a, b);
  }

  // ----------------------------------------------------------------- long division

  /** Sets one bit of a word. */
  function OrBit(word: nat, bit: nat): nat {
    if word / Pow2(bit) % 2 == 1 then word else word + Pow2(bit)
  }

  /** Dividing what the top bits of the numerator, down to `bit`, amount to has given
      `digits` and `remainder`, apart from the bits above the first. */
  ghost predicate Divided(numerator: nat, denominator: nat, bits: nat, bit: nat, quotient: nat, digits: nat,
        remainder: nat)
    requires bit <= bits
  {
    && quotient == digits * Pow2(bit)
    && remainder < denominator
    && Shr(numerator, bit) == Shr(numerator, bits) * Pow2(bits - bit) + digits * denominator + remainder
  }

  lemma PlaceOfBit(digits: nat, bit: nat)
    ensures digits * Pow2(bit + 1) == 2 * digits * Pow2(bit)
    ensures digits * Pow2(bit + 1) / Pow2(bit) % 2 == 0
    ensures (2 * digits + 1) * Pow2(bit) == digits * Pow2(bit + 1) + Pow2(bit)
  {
    assert Pow2(bit + 1) == 2 * Pow2(bit);
    DivUnique(2 * digits * Pow2(bit), Pow2(bit), 2 * digits, 0);
  }

  lemma DoubleRow(row: nat, next: nat, b: nat, high: nat, p: nat, digits: nat, denominator: nat, remainder: nat)
    requires row == high * p + digits * denominator + remainder && next == row * 2 + b
    ensures next == high * (2 * p) + 2 * digits * denominator + (2 * remainder + b)
    ensures next == high * (2 * p) + (2 * digits + 1) * denominator + (2 * remainder + b - denominator)
  {
    assert high * (2 * p) == 2 * (high * p);
    assert 2 * digits * denominator == 2 * (digits * denominator);
    assert (2 * digits + 1) * denominator == 2 * (digits * denominator) + denominator;
  }

  lemma NextBit(numerator: nat, bit: nat)
    ensures Shr(numerator, bit) == Shr(numerator, bit + 1) * 2 + Shr(numerator, bit) % 2
  {
    ShrAdd(numerator, bit, 1);
    assert Shr(Shr(numerator, bit), 1) == Shr(numerator, bit) / 2;
  }

  lemma DivisionStep(numerator: nat, denominator: nat, bits: nat, bit: nat, quotient: nat, digits: nat, remainder: nat)
    requires bit < bits && Divided(numerator, denominator, bits, bit + 1, quotient, digits, remainder)
    ensures var doubled := 2 * remainder + Shr(numerator, bit) % 2;
            if doubled >= denominator
            then OrBit(quotient, bit) == quotient + Pow2(bit)
                 && Divided(numerator, denominator, bits, bit, quotient + Pow2(bit), 2 * digits + 1,
                       doubled - denominator)
            else Divided(numerator, denominator, bits, bit, quotient, 2 * digits, doubled)
  {
    PlaceOfBit(digits, bit);
    NextBit(numerator, bit);
    DoubleRow(Shr(numerator, bit + 1), Shr(numerator, bit), Shr(numerator, bit) % 2,
              Shr(numerator, bits), Pow2(bits - bit - 1), digits, denominator, remainder);
    assert Pow2(bits - bit) == 2 * Pow2(bits - bit - 1);
  }

  lemma DivisionStarts(numerator: nat, denominator: nat, bits: nat)
    requires denominator > 0
    ensures Divided(numerator, denominator, bits, bits, 0, 0, 0)
  {
  }

  lemma DivisionDone(numerator: nat, denominator: nat, bits: nat, quotient: nat, digits: nat, remainder: nat)
    requires Divided(numerator, denominator, bits, 0, quotient, digits, remainder)
    ensures quotient == numerator % Pow2(bits) / denominator
  {
    ShrIsDivision(numerator, bits);
    DivUnique(numerator, Pow2(bits), numerator / Pow2(bits), numerator % Pow2(bits));
    DivUnique(numerator % Pow2(bits), denominator, digits, remainder);
  }

  function DivisionBits(w: Width): nat {
    if w == W32 then 63 else 127
  }

  /** The lane's word: one bit more than is divided. */
  function LaneWord(w: Width): nat {
    if w == W32 then TWO_64 else TWO_128
  }

  /** Shifting a bit into the remainder; the word drops what it cannot hold. */
  function ShiftIn(w: Width, remainder: nat, bit: nat): nat {
    2 * remainder % LaneWord(w) + bit
  }

  /** A remainder that has taken in fewer bits than the divided ones loses none. */
  lemma ShiftInFits(w: Width, remainder: nat, bit: nat, taken: nat)
    requires taken < DivisionBits(w) && remainder < Pow2(taken) && bit < 2
    ensures ShiftIn(w, remainder, bit) == 2 * remainder + bit < Pow2(taken + 1) < LaneWord(w)
  {
    Pow2Values();
    Pow2Add(63, 64);
    Pow2Monotone(taken + 1, DivisionBits(w));
    DivUnique(2 * remainder, LaneWord(w), 0, 2 * remainder);
  }

  /** UnsignedDiv64 and UnsignedDiv128: long division from the bit below the top one,
      with a zero denominator replaced by one. No shift loses a bit, whatever the
      denominator. */
  method UnsignedDiv(w: Width, numerator: nat, denominator: nat) returns (quotient: nat)
    ensures quotient == numerator % Pow2(DivisionBits(w)) / if denominator == 0 then 1 else denominator
  {
    hide Divided;
    hide OrBit;
    hide ShiftIn;
    hide Shr;
    var bits, safe := DivisionBits(w), if denominator == 0 then 1 else denominator;
    DivisionStarts(numerator, safe, bits);
    var remainder: nat, bit: nat := 0, bits;
    ghost var digits: nat := 0;
    quotient := 0;
    while bit > 0
      invariant bit <= bits && remainder < Pow2(bits - bit)
      invariant Divided(numerator, safe, bits, bit, quotient, digits, remainder)
    {
      bit := bit - 1;
      DivisionStep(numerator, safe, bits, bit, quotient, digits, remainder);
      ShiftInFits(w, remainder, Shr(numerator, bit) % 2, bits - bit - 1);
      remainder, digits := ShiftIn(w, remainder, Shr(numerator, bit) % 2), 2 * digits;
      if remainder >= safe {
        remainder, quotient, digits := remainder - safe, OrBit(quotient, bit), digits + 1;
      }
    }
    DivisionDone(numerator, safe, bits, quotient, digits, remainder);
  }

  method LaneDivFixed(w: Width, a: int, b: int) returns (r: int)
    requires IsFixed(w, a) && IsFixed(w, b)
    ensures r == DivFixed(w, a, b)
  {
    var quotient := UnsignedDiv(w, Magnitude(a) * Scale(w), Magnitude(b));
    var divided := ClampMagnitude(w, (a < 0) != (b < 0), quotient);
    r := if b == 0 then (if a > 0 then FixedMax(w) else if a < 0 then FixedMin(w) else 0) else divided;
    if b != 0 {
      NumeratorFits(w, Magnitude(a) * Scale(w), Magnitude(a));
      DividedIsScalar(w, a * Scale(w), b, quotient);
    }
  }

  method LaneRecip(w: Width, x: int) returns (r: int)
    requires IsFixed(w, x)
    ensures r == Recip(w, x)
  {
    var quotient := UnsignedDiv(w, Scale(w) * Scale(w), Magnitude(x));
    var recip := ClampMagnitude(w, x < 0, quotient);
    r := if x == 0 then FixedMax(w) else recip;
    if x != 0 {
      NumeratorFits(w, Scale(w) * Scale(w), Scale(w));
      DividedIsScalar(w, Scale(w) * Scale(w), x, quotient);
    }
  }

  lemma NumeratorFits(w: Width, numerator: nat, m: nat)
    requires numerator == m * Scale(w) && m <= Scale(w)
    ensures numerator % Pow2(DivisionBits(w)) == numerator
  {
    Pow2Values();
    Pow2Add(63, 64);
    var p := Pow2(DivisionBits(w));
    MulMonotone(m, Scale(w), Scale(w));
    DivUnique(numerator, p, 0, numerator);
  }

  lemma DividedIsScalar(w: Width, n: int, d: int, quotient: nat)
    requires d != 0 && quotient == Magnitude(n) / Magnitude(d)
    ensures ClampMagnitude(w, (n < 0) != (d < 0), quotient) == Clamp(w, TruncDiv(n, d))
  {
    QuotientOfMagnitudes(n, d, (n < 0) != (d < 0));
    ClampMagnitudeIsClamp(w, (n < 0) != (d < 0), quotient);
  }

  /** The lane form selects on the sign after computing both. */
  method LaneRsqrt(w: Width, x: int) returns (r: int)
    requires IsFixed(w, x)
    ensures r == RsqrtOf(w, x)
  {
    var root: int;
    if w == W32 {
      root := LaneSqrt(x);
    } else {
      root := LaneSqrt64(x);
    }
    var recip := LaneRecip(w, root);
    r := if x <= 0 then FixedMax(w) else recip;
    if x > 0 {
      RsqrtIsReciprocalOfRoot(w, x);
    }
  }
}
