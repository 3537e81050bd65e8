/** Unsigned machine words, the bitwise operators on them and the saturating
    arithmetic that several components share. */
module Words {

  const TWO_32: int := 0x1_0000_0000
  const TWO_64: int := 0x1_0000_0000_0000_0000
  const TWO_128: int := TWO_64 * TWO_64
  const U64_MAX: int := TWO_64 - 1

  type u32 = x: int | 0 <= x < TWO_32
  type u64 = x: int | 0 <= x < TWO_64
  type u128 = x: int | 0 <= x < TWO_128

  datatype Option<+T> = None | Some(value: T)

  function Min(a: int, b: int): int {
    if a < b then a else b
  }

  function Max(a: int, b: int): int {
    if a > b then a else b
  }

  function Magnitude(x: int): nat {
    if x < 0 then -x else x
  }

  // Unsigned addition, subtraction and multiplication: all wrap.

  function WrapAdd(a: u64, b: u64): u64 {
    (a + b) % TWO_64
  }

  /** The same on 32-bit words, without a modulus. */
  function WrapAdd32(a: u32, b: u32): u32 {
    if a + b < TWO_32 then a + b else a + b - TWO_32
  }

  function WrapSub(a: u64, b: u64): u64 {
    (a - b) % TWO_64
  }

  function WrapMul(a: u64, b: u64): u64 {
    a * b % TWO_64
  }

  function SatAdd(a: u64, b: u64): (r: u64)
    ensures r == Min(a + b, U64_MAX)
  {
    if a > U64_MAX - b then U64_MAX else a + b
  }

  function SatSub(a: u64, b: u64): (r: u64)
    ensures r == Max(a - b, 0)
  {
    a - (if b > a then a else b)
  }

  function CeilDiv(a: nat, b: nat): nat
    requires b > 0
  {
    (a + b - 1) / b
  }

  /** Quotient truncated toward zero, as C++ divides signed integers. */
  function TruncDiv(a: int, b: int): int
    requires b != 0
  {
    if a >= 0 then (if b > 0 then a / b else -(a / -b))
    else (if b > 0 then -(-a / b) else -a / -b)
  }

  function Pow2(n: nat): (r: nat)
    ensures r >= 1
  {
    if n == 0 then 1 else 2 * Pow2(n - 1)
  }

  lemma {:induction false} Pow2Add(a: nat, b: nat)
    ensures Pow2(a + b) == Pow2(a) * Pow2(b)
    decreases a
  {
    if a != 0 {
      Pow2Add(a - 1, b);
      assert a + b - 1 == (a - 1) + b;
    }
  }

  lemma {:induction false} Pow2Monotone(a: nat, b: nat)
    requires a <= b
    ensures Pow2(a) <= Pow2(b)
    decreases b
  {
    if a < b {
      Pow2Monotone(a, b - 1);
    }
  }

  lemma Pow2Values()
    ensures Pow2(31) == 0x8000_0000
    ensures Pow2(32) == TWO_32
    ensures Pow2(63) == 0x8000_0000_0000_0000
    ensures Pow2(64) == TWO_64
  {
    assert Pow2(8) == 256;
    Pow2Add(8, 8);
    Pow2Add(16, 16);
    Pow2Add(32, 32);
    assert Pow2(32) == 2 * Pow2(31);
    assert Pow2(64) == 2 * Pow2(63);
  }

  // ------------------------------------------------------ sequences, finite sets

  lemma ConcatAssociates<T>(a: seq<T>, b: seq<T>, c: seq<T>)
    ensures a + b + c == a + (b + c)
  {
  }

  function NatsBelow(n: nat): (s: set<int>)
    ensures |s| == n
    ensures forall x :: x in s <==> 0 <= x < n
  {
    if n == 0 then {} else NatsBelow(n - 1) + {n - 1}
  }

  lemma {:induction false} SubsetSize<T>(s: set<T>, t: set<T>)
    requires s <= t
    ensures |s| <= |t|
    ensures |s| == |t| ==> s == t
    decreases s
  {
    if s == {} {
      assert |t| == 0 ==> t == {};
    } else {
      var x :| x in s;
      SubsetSize(s - {x}, t - {x});
    }
  }

  // ---------------------------------------------------------------- division

  lemma MulMonotone(a: int, b: int, d: int)
    requires d >= 0
    ensures a <= b ==> a * d <= b * d
  {
  }

  lemma MulBoth(a: nat, big: nat, b: nat, large: nat)
    requires a <= big && b <= large
    ensures a * b <= big * large
  {
    MulMonotone(a, big, b);
    MulMonotone(b, large, big);
  }

  lemma DivUnique(a: int, d: int, q: int, r: int)
    requires d > 0 && a == q * d + r && 0 <= r < d
    ensures a / d == q && a % d == r
  {
    var e := a / d - q;
    assert a / d * d + a % d == a;
    assert e * d == r - a % d by {
      assert (a / d - q) * d == a / d * d - q * d;
    }
    MulMonotone(1, e, d);
    MulMonotone(e, -1, d);
  }

  lemma DivMonotone(a: int, b: int, d: int)
    requires d > 0 && a <= b
    ensures a / d <= b / d
  {
    MulMonotone(b / d + 1, a / d, d);
  }

  lemma DigitsFit(high: int, low: int, b: nat, c: nat)
    requires 0 <= high < c && 0 <= low < b
    ensures 0 <= high * b + low < b * c
  {
    MulMonotone(0, high, b);
    MulMonotone(high, c - 1, b);
    assert (c - 1) * b == b * c - b;
  }

  lemma Regroup(q: int, high: int, low: int, b: int, c: int)
    ensures (q * c + high) * b + low == q * (b * c) + (high * b + low)
  {
  }

  lemma QuotientSplits(a: int, d: int)
    requires d > 0
    ensures a == a / d * d + a % d && 0 <= a % d < d
  {
  }

  lemma DivDiv(a: int, b: nat, c: nat)
    requires b > 0 && c > 0
    ensures b * c > 0
    ensures a / b / c == a / (b * c)
    ensures a % (b * c) == (a / b % c) * b + a % b
  {
    var q, low := a / b, a % b;
    QuotientSplits(a, b);
    QuotientSplits(q, c);
    Regroup(q / c, q % c, low, b, c);
    DigitsFit(q % c, low, b, c);
    DivUnique(a, b * c, q / c, q % c * b + low);
  }

  lemma ModEqual(a: int, b: int, k: int, m: int)
    requires m > 0 && a == b + k * m
    ensures a % m == b % m
  {
    DivUnique(a, m, b / m + k, b % m);
  }

  lemma MulModLeft(a: int, b: int, m: int)
    requires m > 0
    ensures ((a % m) * b) % m == (a * b) % m
  {
    assert a * b == (a % m) * b + (a / m * b) * m by {
      assert a == a / m * m + a % m;
    }
    ModEqual(a * b, (a % m) * b, a / m * b, m);
  }

  lemma MulRotate(a: int, b: int, c: int)
    ensures a * b * c == b * c * a
  {
  }

  lemma ModUnit(unit: int, x: nat, m: nat)
    requires x < m && unit % m == 1
    ensures (unit * x) % m == x
  {
    MulModLeft(unit, x, m);
    DivUnique(x, m, 0, x);
  }

  /** Multiplying by a word that has an inverse modulo m loses nothing. */
  lemma MulModInverse(x: nat, k: nat, inverse: nat, m: nat)
    requires m > 0 && x < m && (k * inverse) % m == 1
    ensures ((x * k) % m * inverse) % m == x
  {
    MulModLeft(x * k, inverse, m);
    MulRotate(x, k, inverse);
    ModUnit(k * inverse, x, m);
  }

  // --------------------------------------------------------------- bitwise xor

  /** Bitwise exclusive or, bit by bit from the least significant one. */
  function Xor(a: nat, b: nat): nat {
    if a == 0 && b == 0 then 0
    else (if a % 2 == b % 2 then 0 else 1) + 2 * Xor(a / 2, b / 2)
  }

  lemma {:induction false} XorZero(a: nat)
    ensures Xor(a, 0) == a && Xor(0, a) == a
  {
    if a != 0 {
      XorZero(a / 2);
    }
  }

  lemma XorHalf(a: nat, b: nat)
    ensures Xor(a, b) / 2 == Xor(a / 2, b / 2)
    ensures Xor(a, b) % 2 == if a % 2 == b % 2 then 0 else 1
  {
  }

  lemma {:induction false} XorCommutes(a: nat, b: nat)
    ensures Xor(a, b) == Xor(b, a)
  {
    if a != 0 || b != 0 {
      XorCommutes(a / 2, b / 2);
    }
  }

  lemma {:induction false} XorAssociates(a: nat, b: nat, c: nat)
    ensures Xor(Xor(a, b), c) == Xor(a, Xor(b, c))
    decreases a + b + c
  {
    if a != 0 || b != 0 || c != 0 {
      XorAssociates(a / 2, b / 2, c / 2);
      XorHalf(a, b);
      XorHalf(b, c);
      XorHalf(Xor(a, b), c);
      XorHalf(a, Xor(b, c));
    }
  }

  lemma {:induction false} XorSelf(a: nat)
    ensures Xor(a, a) == 0
  {
    if a != 0 {
      XorSelf(a / 2);
    }
  }

  lemma XorCancels(a: nat, b: nat)
    ensures Xor(Xor(a, b), b) == a
  {
    XorAssociates(a, b, b);
    XorSelf(b);
    XorZero(a);
  }

  lemma {:induction false} XorBound(a: nat, b: nat, bits: nat)
    requires a < Pow2(bits) && b < Pow2(bits)
    ensures Xor(a, b) < Pow2(bits)
    decreases bits
  {
    if a != 0 || b != 0 {
      XorBound(a / 2, b / 2, bits - 1);
    }
  }

  lemma XorWord(a: u64, b: u64)
    ensures Xor(a, b) < TWO_64
  {
    Pow2Values();
    XorBound(a, b, 64);
  }

  // ------------------------------------------------------------- right shift

  /** Logical right shift, one bit at a time. */
  function Shr(a: nat, shift: nat): nat {
    if shift == 0 then a else Shr(a / 2, shift - 1)
  }

  lemma {:induction false} ShrIsDivision(a: nat, shift: nat)
    ensures Shr(a, shift) == a / Pow2(shift)
  {
    if shift != 0 {
      ShrIsDivision(a / 2, shift - 1);
      DivDiv(a, 2, Pow2(shift - 1));
    }
  }

  lemma {:induction false} ShrAdd(a: nat, s: nat, t: nat)
    ensures Shr(Shr(a, s), t) == Shr(a, s + t)
    decreases s
  {
    if s != 0 {
      ShrAdd(a / 2, s - 1, t);
    }
  }

  lemma {:induction false} ShrVanishes(a: nat, shift: nat)
    requires a < Pow2(shift)
    ensures Shr(a, shift) == 0
  {
    if shift != 0 {
      ShrVanishes(a / 2, shift - 1);
    }
  }

  lemma {:induction false} ShrShrinks(a: nat, shift: nat)
    ensures Shr(a, shift) <= a
  {
    if shift != 0 {
      ShrShrinks(a / 2, shift - 1);
    }
  }

  lemma {:induction false} XorShr(a: nat, b: nat, shift: nat)
    ensures Shr(Xor(a, b), shift) == Xor(Shr(a, shift), Shr(b, shift))
    decreases shift
  {
    if shift != 0 {
      XorHalf(a, b);
      XorShr(a / 2, b / 2, shift - 1);
    }
  }

  // ------------------------------------------------------------------------- bytes

  /** The number with these bytes, least significant first. */
  function FromBytes(bytes: seq<nat>): nat {
    if bytes == [] then 0 else bytes[0] + 256 * FromBytes(bytes[1..])
  }

  /** Eight bits further down is one byte less. */
  lemma ShrByte(n: nat, shift: nat)
    ensures Shr(n, shift) == 256 * Shr(n, shift + 8) + Shr(n, shift) % 256
  {
    ShrAdd(n, shift, 8);
    ShrIsDivision(Shr(n, shift), 8);
    assert Pow2(8) == 256;
  }

  /** Bytes cut off a number from the low end make up the number again. */
  lemma {:induction false} BytesMakeUp(n: nat, from: nat, bytes: seq<nat>)
    requires forall i :: 0 <= i < |bytes| ==> bytes[i] == Shr(n, 8 * (from + i)) % 256
    requires Shr(n, 8 * (from + |bytes|)) == 0
    ensures FromBytes(bytes) == Shr(n, 8 * from)
    decreases |bytes|
  {
    if bytes != [] {
      ShrByte(n, 8 * from);
      BytesMakeUp(n, from + 1, bytes[1..]);
    }
  }
}
