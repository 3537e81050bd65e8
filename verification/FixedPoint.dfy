/** Signed fixed-point numbers in [-1, 1) at 32 and at 64 bits: the scalar forms
    (math64/include/math64/fixed/scalar.hpp, math32/include/math32/fixed/scalar.hpp)
    and the two bitwise square roots. A number is its raw integer; Scale is one. */
module FixedPoint {
  import opened Words

  datatype Width = W32 | W64

  function Scale(w: Width): (r: nat)
    ensures r > 0
  {
    if w == W32 then 0x8000_0000 else 0x8000_0000_0000_0000
  }

  predicate IsFixed(w: Width, x: int) {
    0 - Scale(w) <= x < Scale(w)
  }

  function FixedMax(w: Width): int {
    Scale(w) - 1
  }

  function FixedMin(w: Width): int {
    0 - Scale(w)
  }

  function Clamp(w: Width, x: int): (r: int)
    ensures IsFixed(w, r)
    ensures IsFixed(w, x) ==> r == x
  {
    if x > FixedMax(w) then FixedMax(w) else if x < FixedMin(w) then FixedMin(w) else x
  }

  function MulFixed(w: Width, a: int, b: int): int {
    Clamp(w, TruncDiv(a * b, Scale(w)))
  }

  function MulAddFixed(w: Width, a: int, b: int, addend: int): int {
    Clamp(w, TruncDiv(a * b, Scale(w)) + addend)
  }

  function DivFixed(w: Width, a: int, b: int): int {
    if b == 0 then (if a > 0 then FixedMax(w) else if a < 0 then FixedMin(w) else 0)
    else Clamp(w, TruncDiv(a * Scale(w), b))
  }

  function Recip(w: Width, x: int): int {
    if x == 0 then FixedMax(w) else Clamp(w, TruncDiv(Scale(w) * Scale(w), x))
  }

  // -------------------------------------------------- what the scalar forms compute

  /** q is the rational n / d, with what is after the point cut off. */
  predicate IsTruncated(n: int, d: int, q: int) {
    && Magnitude(q) * Magnitude(d) <= Magnitude(n) < (Magnitude(q) + 1) * Magnitude(d)
    && (q > 0 ==> (n > 0) == (d > 0)) && (q < 0 ==> (n > 0) != (d > 0))
  }

  /** r is the fixed-point number nearest to q. */
  ghost predicate IsNearest(w: Width, q: int, r: int) {
    IsFixed(w, r) && forall x :: IsFixed(w, x) ==> (x <= q ==> x <= r) && (q <= x ==> r <= x)
  }

  lemma TruncatedQuotient(n: int, d: int, q: int)
    requires d != 0 && IsTruncated(n, d, q)
    ensures q == TruncDiv(n, d)
  {
    DivUnique(Magnitude(n), Magnitude(d), Magnitude(q), Magnitude(n) - Magnitude(q) * Magnitude(d));
  }

  /** A product is the product toward zero, and with an addend that much more, or the
      nearest number in range. */
  lemma ProductMeans(w: Width, a: int, b: int, addend: int, q: int)
    requires IsTruncated(a * b, Scale(w), q)
    ensures IsNearest(w, q, MulFixed(w, a, b)) && IsNearest(w, q + addend, MulAddFixed(w, a, b, addend))
  {
    TruncatedQuotient(a * b, Scale(w), q);
  }

  /** A quotient is the quotient toward zero or the nearest number in range; by zero it
      is the end of the dividend's sign, and zero by zero is zero. */
  lemma QuotientMeans(w: Width, a: int, b: int, q: int)
    requires b != 0 ==> IsTruncated(a * Scale(w), b, q)
    ensures b != 0 ==> IsNearest(w, q, DivFixed(w, a, b))
    ensures b == 0 ==> DivFixed(w, a, b) == if a == 0 then 0 else if a < 0 then 0 - Scale(w) else Scale(w) - 1
  {
    if b != 0 {
      TruncatedQuotient(a * Scale(w), b, q);
    }
  }

  /** A reciprocal is one over the number, toward zero, or the nearest number in range;
      that of zero is the largest number. */
  lemma ReciprocalMeans(w: Width, x: int, q: int)
    requires x != 0 ==> IsTruncated(Scale(w) * Scale(w), x, q)
    ensures x != 0 ==> IsNearest(w, q, Recip(w, x))
    ensures x == 0 ==> Recip(w, x) == Scale(w) - 1
  {
    if x != 0 {
      TruncatedQuotient(Scale(w) * Scale(w), x, q);
    }
  }

  // ----------------------------------------------------------- integer square root

  predicate IsRoot(r: nat, v: nat) {
    r * r <= v < (r + 1) * (r + 1)
  }

  lemma DoubledRoot(half: nat, v: nat)
    requires IsRoot(half, v / 4)
    ensures 2 * half * (2 * half) <= v < (2 * half + 2) * (2 * half + 2)
  {
    var quarter := v / 4;
    assert 4 * (half * half) <= 4 * quarter <= v < 4 * quarter + 4 <= 4 * ((half + 1) * (half + 1));
    assert 2 * half * (2 * half) == 4 * (half * half);
    assert (2 * half + 2) * (2 * half + 2) == 4 * ((half + 1) * (half + 1));
  }

  /** The reference: the root of v / 4, doubled, then perhaps one more. */
  function Root(v: nat): (r: nat)
    ensures IsRoot(r, v)
    decreases v
  {
    if v == 0 then 0
    else
      var half := Root(v / 4);
      DoubledRoot(half, v);
      if (2 * half + 1) * (2 * half + 1) <= v then 2 * half + 1 else 2 * half
  }

  lemma SquareMonotone(a: nat, b: nat)
    ensures a <= b ==> a * a <= b * b
    ensures a < b ==> a * a < b * b
  {
  }

  lemma RootUnique(r: nat, v: nat)
    requires IsRoot(r, v)
    ensures r == Root(v)
  {
    SquareMonotone(r + 1, Root(v));
    SquareMonotone(Root(v) + 1, r);
  }

  lemma RootMonotone(u: nat, v: nat)
    requires u <= v
    ensures Root(u) <= Root(v)
  {
    SquareMonotone(Root(v) + 1, Root(u));
  }

  /** `result` and `bit` hold the root found so far, scaled to its place. */
  ghost predicate Scaled(result: int, bit: int, root: nat, level: nat) {
    if level == 0 then result == root && bit == 0
    else result == root * Pow2(level) && bit == Pow2(level - 1) * Pow2(level - 1)
  }

  /** The root found so far is right up to 2^level; its square is off `value`. */
  ghost predicate Rooting(v: nat, value: int, result: int, bit: int, root: nat, level: nat) {
    && value == v - root * root && 0 <= value
    && (if level == 0 then v < (root + 1) * (root + 1)
        else v < (root + Pow2(level)) * (root + Pow2(level)))
    && Scaled(result, bit, root, level)
  }

  lemma StepAlgebra(root: nat, h: nat)
    ensures root * (2 * h) == 2 * (root * h)
    ensures (root + h) * (root + h) == root * root + (2 * (root * h) + h * h)
    ensures (root + h) * h == root * h + h * h
    ensures root + h + h == root + 2 * h
  {
  }

  lemma ScaledStep(result: int, bit: int, root: nat, level: nat)
    requires Scaled(result, bit, root, level) && level > 0
    ensures Scaled(result / 2 + bit, bit / 4, root + Pow2(level - 1), level - 1)
    ensures Scaled(result / 2, bit / 4, root, level - 1)
    ensures result + bit == 2 * (root * Pow2(level - 1)) + Pow2(level - 1) * Pow2(level - 1)
  {
    StepAlgebra(root, Pow2(level - 1));
    if level > 1 {
      StepAlgebra(Pow2(level - 2), Pow2(level - 2));
      assert Pow2(level - 1) == Pow2(level - 2) + Pow2(level - 2);
    }
  }

  /** One round of either loop. */
  lemma RootingStep(v: nat, value: int, result: int, bit: int, root: nat, level: nat)
    requires Rooting(v, value, result, bit, root, level) && level > 0
    ensures if value >= result + bit
            then Rooting(v, value - (result + bit), result / 2 + bit, bit / 4, root + Pow2(level - 1), level - 1)
            else Rooting(v, value, result / 2, bit / 4, root, level - 1)
  {
    StepAlgebra(root, Pow2(level - 1));
    ScaledStep(result, bit, root, level);
    assert root + Pow2(level) == root + Pow2(level - 1) + Pow2(level - 1);
  }

  lemma RootingDone(v: nat, value: int, result: int, bit: int, root: nat)
    requires Rooting(v, value, result, bit, root, 0)
    ensures result == Root(v) && IsRoot(result, v)
  {
    RootUnique(root, v);
  }

  lemma RootBelow(root: nat, v: nat, bound: nat)
    requires root * root <= v < bound * bound
    ensures root < bound
  {
    SquareMonotone(bound, root);
  }

  lemma LevelFits(root: nat, level: nat, bits: nat, rootBound: nat)
    requires level < bits && root < rootBound
    ensures root * Pow2(level) <= rootBound * Pow2(bits - 1)
    ensures level > 0 ==> Pow2(level - 1) * Pow2(level - 1) <= Pow2(bits - 1) * Pow2(bits - 1)
  {
    Pow2Monotone(level, bits - 1);
    MulBoth(root, rootBound, Pow2(level), Pow2(bits - 1));
    if level > 0 {
      Pow2Monotone(level - 1, bits - 1);
      MulBoth(Pow2(level - 1), Pow2(bits - 1), Pow2(level - 1), Pow2(bits - 1));
    }
  }

  lemma ScaledNonNegative(result: int, bit: int, root: nat, level: nat)
    requires Scaled(result, bit, root, level)
    ensures 0 <= result && 0 <= bit
  {
    if level > 0 {
      MulMonotone(0, root, Pow2(level));
      MulMonotone(0, Pow2(level - 1), Pow2(level - 1));
    }
  }

  lemma ScaledFits(result: int, bit: int, root: nat, level: nat)
    requires Scaled(result, bit, root, level) && root < TWO_64 && level <= 64 && (level == 64 ==> root == 0)
    ensures 0 <= result && 0 <= bit && result + bit < TWO_128
  {
    Pow2Values();
    ScaledNonNegative(result, bit, root, level);
    if level < 64 {
      LevelFits(root, level, 64, TWO_64);
    }
  }

  lemma ScaledFitsNarrow(result: int, bit: int, root: nat, level: nat)
    requires Scaled(result, bit, root, level) && root < TWO_32 && level <= 32 && (level == 32 ==> root == 0)
    ensures 0 <= result && 0 <= bit && result + bit < TWO_64
  {
    Pow2Values();
    ScaledNonNegative(result, bit, root, level);
    if level < 32 {
      LevelFits(root, level, 32, TWO_32);
    }
  }

  lemma RootingStarts(v: nat, level: nat)
    requires level > 0 && v < Pow2(level) * Pow2(level)
    ensures Rooting(v, v, 0, Pow2(level - 1) * Pow2(level - 1), 0, level)
  {
  }

  /** One round, on either word. */
  method Round(v: u128, value: u128, result: u128, bit: u128, ghost root: nat, ghost level: nat)
    returns (value': u128, result': u128, bit': u128, ghost root': nat)
    requires Rooting(v, value, result, bit, root, level) && 0 < level <= 64 && (level == 64 ==> root == 0)
    ensures Rooting(v, value', result', bit', root', level - 1)
    ensures value' <= value && result' <= result + bit && bit' <= bit
  {
    RootBelow(root, v, TWO_64);
    ScaledFits(result, bit, root, level);
    RootingStep(v, value, result, bit, root, level);
    if value >= result + bit {
      value', result', root' := value - (result + bit), result / 2 + bit, root + Pow2(level - 1);
    } else {
      value', result', root' := value, result / 2, root;
    }
    bit' := bit / 4;
  }

  lemma RoundsLeft(v: nat, value: int, result: int, bit: int, root: nat, level: nat)
    requires Rooting(v, value, result, bit, root, level)
    ensures 0 <= bit && (bit == 0 <==> level == 0)
  {
    if level > 0 {
      SquareMonotone(1, Pow2(level - 1));
    }
  }

  /** The shared loop of both scalar headers, on 128-bit words. */
  method IntegerSqrt128(v: u128) returns (result: u128)
    ensures result == Root(v) && IsRoot(result, v)
  {
    hide Rooting;
    Pow2Values();
    var value: u128, bit: u128 := v, 0x4000_0000_0000_0000_0000_0000_0000_0000;
    ghost var level: nat, root: nat := 64, 0;
    result := 0;
    RootingStarts(v, level);
    while bit > value
      invariant level <= 64 && value == v && Rooting(v, value, 0, bit, 0, level)
      decreases level
    {
      RoundsLeft(v, value, 0, bit, 0, level);
      RootingStep(v, value, 0, bit, 0, level);
      bit, level := bit / 4, level - 1;
    }
    while bit != 0
      invariant level <= 64 && (level == 64 ==> root == 0)
      invariant Rooting(v, value, result, bit, root, level)
      decreases level
    {
      RoundsLeft(v, value, result, bit, root, level);
      value, result, bit, root := Round(v, value, result, bit, root, level);
      level := level - 1;
    }
    RoundsLeft(v, value, result, bit, root, level);
    RootingDone(v, value, result, bit, root);
  }

  /** One lane of the vector form: always 32 rounds, on 64-bit words. */
  method UnsignedSqrtWide(v: u64) returns (result: u64)
    ensures result == Root(v) && IsRoot(result, v)
  {
    Pow2Values();
    var value: u64, bit: u64 := v, 0x4000_0000_0000_0000;
    ghost var root: nat, level: nat := 0, 32;
    result := 0;
    RootingStarts(v, level);
    for step := 0 to 32
      invariant level == 32 - step && (level == 32 ==> root == 0)
      invariant Rooting(v, value, result, bit, root, level)
    {
      RootBelow(root, v, TWO_32);
      ScaledFitsNarrow(result, bit, root, level);
      value, result, bit, root := Round(v, value, result, bit, root, level);
      level := level - 1;
    }
    RootingDone(v, value, result, bit, root);
  }

  /** The same lane at twice the width: 64 rounds on 128-bit words. */
  method UnsignedSqrt128(v: u128) returns (result: u128)
    ensures result == Root(v) && IsRoot(result, v)
  {
    Pow2Values();
    var value: u128, bit: u128 := v, 0x4000_0000_0000_0000_0000_0000_0000_0000;
    ghost var root: nat, level: nat := 0, 64;
    result := 0;
    RootingStarts(v, level);
    for step := 0 to 64
      invariant level == 64 - step && (level == 64 ==> root == 0)
      invariant Rooting(v, value, result, bit, root, level)
    {
      RootBelow(root, v, TWO_64);
      ScaledFits(result, bit, root, level);
      value, result, bit, root := Round(v, value, result, bit, root, level);
      level := level - 1;
    }
    RootingDone(v, value, result, bit, root);
  }

  // -------------------------------------------------------------------- square root

  ghost function SqrtOf(w: Width, x: int): int {
    if x <= 0 then 0 else Clamp(w, Root(x * Scale(w)))
  }

  ghost function RsqrtOf(w: Width, x: int): int {
    if x <= 0 then FixedMax(w) else if SqrtOf(w, x) == 0 then FixedMax(w) else Recip(w, SqrtOf(w, x))
  }

  method ScalarSqrt(w: Width, x: int) returns (r: int)
    requires IsFixed(w, x)
    ensures r == SqrtOf(w, x)
  {
    if x <= 0 {
      return 0;
    }
    MulMonotone(x, Scale(w), Scale(w));
    var root := IntegerSqrt128(x * Scale(w));
    r := Clamp(w, root);
  }

  lemma Between(x: nat, scale: nat)
    requires 0 < x < scale
    ensures x * x <= x * scale < scale * scale
  {
    MulMonotone(x, scale, x);
    assert (x + 1) * scale == x * scale + scale;
    MulMonotone(x + 1, scale, scale);
  }

  lemma RootBetween(r: nat, v: nat, low: nat, high: nat)
    requires r * r <= v < (r + 1) * (r + 1) && low * low <= v < high * high
    ensures low <= r < high
  {
    RootBelow(r, v, high);
    SquareMonotone(r + 1, low);
  }

  lemma SquareComesBack(w: Width, x: int, s: nat)
    requires 0 < x < Scale(w) && s * s <= x * Scale(w)
    ensures MulFixed(w, s, s) <= x
  {
    hide Scale;
    DivMonotone(s * s, x * Scale(w), Scale(w));
    DivUnique(x * Scale(w), Scale(w), x, 0);
    assert s * s >= 0;
  }

  /** The clamp is never needed, the root is at least the number, and squaring it
      comes back to the number or just below: the next raw value would overshoot. */
  lemma SqrtBounds(w: Width, x: int)
    requires 0 < x < Scale(w)
    ensures var s := SqrtOf(w, x);
            && s == Root(x * Scale(w)) && x <= s <= FixedMax(w)
            && MulFixed(w, s, s) <= x && x * Scale(w) < (s + 1) * (s + 1)
  {
    hide MulFixed;
    hide Root;
    Between(x, Scale(w));
    RootBetween(Root(x * Scale(w)), x * Scale(w), x, Scale(w));
    SquareComesBack(w, x, Root(x * Scale(w)));
  }

  method LaneSqrt(x: int) returns (r: int)
    requires IsFixed(W32, x)
    ensures r == SqrtOf(W32, x)
  {
    var magnitude := if x > 0 then x else 0;
    var root := UnsignedSqrtWide(magnitude * 0x8000_0000);
    r := if root > FixedMax(W32) then FixedMax(W32) else root;
  }

  /** A word read as a signed number, as a 64-bit lane keeps the low half of a root. */
  function AsSigned64(word: nat): int {
    var low := word % TWO_64;
    if low < Scale(W64) then low else low - TWO_64
  }

  /** The 64-bit form narrows its root without a clamp. */
  lemma RadicandFits(x: int)
    requires 0 <= x < Scale(W64)
    ensures 0 <= x * Scale(W64) < TWO_128
  {
    MulMonotone(x, Scale(W64), Scale(W64));
  }

  method LaneSqrt64(x: int) returns (r: int)
    requires IsFixed(W64, x)
    ensures r == SqrtOf(W64, x)
  {
    hide Root;
    hide MulFixed;
    var magnitude := if x > 0 then x else 0;
    RadicandFits(magnitude);
    var root := UnsignedSqrt128(magnitude * Scale(W64));
    if x > 0 {
      SqrtBounds(W64, x);
    } else {
      RootUnique(0, 0);
    }
    r := AsSigned64(root);
  }

  lemma SqrtMonotone(w: Width, x: int, y: int)
    requires IsFixed(w, x) && IsFixed(w, y) && x <= y
    ensures SqrtOf(w, x) <= SqrtOf(w, y)
  {
    if x > 0 {
      MulMonotone(x, y, Scale(w));
      RootMonotone(x * Scale(w), y * Scale(w));
    }
  }

  /** The guard against a zero root never fires. */
  lemma RsqrtIsReciprocalOfRoot(w: Width, x: int)
    requires 0 < x < Scale(w)
    ensures SqrtOf(w, x) != 0 && RsqrtOf(w, x) == Recip(w, SqrtOf(w, x))
  {
    SqrtBounds(w, x);
  }
}
