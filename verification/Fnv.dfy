/** The byte hash and its fast paths (node/src/hash/fnv.hpp). */
module Fnv {
  import opened Words

  type u8 = x: int | 0 <= x < 256

  const OFFSET: u64 := 1469598103934665603
  const PRIME: u64 := 1099511628211
  const PRIME_INVERSE: u64 := 0xce96_5057_aff6_957b

  /** One byte into the hash. */
  function Step(hash: u64, byte: u8): u64 {
    XorWord(hash, byte);
    WrapMul(Xor(hash, byte), PRIME)
  }

  function HashFrom(seed: u64, bytes: seq<u8>): u64 {
    if bytes == [] then seed else Step(HashFrom(seed, bytes[..|bytes| - 1]), bytes[|bytes| - 1])
  }

  lemma HashExtends(seed: u64, bytes: seq<u8>, byte: u8)
    ensures HashFrom(seed, bytes + [byte]) == Step(HashFrom(seed, bytes), byte)
  {
    assert (bytes + [byte])[..|bytes|] == bytes;
  }

  /** Byte i of a number, least significant first. */
  function ByteOf(value: nat, i: nat): u8 {
    Shr(value, 8 * i) % 256
  }

  function LittleEndian(value: nat, size: nat): (r: seq<u8>)
    ensures |r| == size
  {
    seq(size, i requires 0 <= i => ByteOf(value, i))
  }

  /** The bytes of a number that has no more make it up again. */
  lemma LittleEndianMeans(value: nat, size: nat)
    requires value < Pow2(8 * size)
    ensures FromBytes(LittleEndian(value, size)) == value
  {
    ShrVanishes(value, 8 * size);
    BytesMakeUp(value, 0, LittleEndian(value, size));
  }

  class Hasher {
    var value: u64

    constructor (seed: u64)
      ensures value == seed
    {
      value := seed;
    }

    method Byte(byte: u8)
      modifies this
      ensures value == Step(old(value), byte)
    {
      XorWord(value, byte);
      value := WrapMul(Xor(value, byte), PRIME);
    }

    method Number(number: nat, size: nat)
      modifies this
      ensures value == HashFrom(old(value), LittleEndian(number, size))
    {
      for i := 0 to size
        invariant value == HashFrom(old(value), LittleEndian(number, size)[..i])
      {
        HashExtends(old(value), LittleEndian(number, size)[..i], ByteOf(number, i));
        assert LittleEndian(number, size)[..i + 1] == LittleEndian(number, size)[..i] + [ByteOf(number, i)];
        Byte(ByteOf(number, i));
      }
      assert LittleEndian(number, size)[..size] == LittleEndian(number, size);
    }

    method Bytes(source: array<u8>, first: nat, count: nat)
      requires first + count <= source.Length
      modifies this
      ensures value == HashFrom(old(value), source[first..first + count])
    {
      for index := 0 to count
        invariant value == HashFrom(old(value), source[first..first + index])
        invariant source[..] == old(source[..])
      {
        HashExtends(old(value), source[first..first + index], source[first + index]);
        assert source[first..first + index + 1] == source[first..first + index] + [source[first + index]];
        Byte(source[first + index]);
      }
    }

    function Finish(): u64
      reads this
    {
      value
    }
  }

  method HashBytes(source: array<u8>, first: nat, count: nat) returns (hash: u64)
    requires first + count <= source.Length
    ensures hash == HashFrom(OFFSET, source[first..first + count])
  {
    var hasher := new Hasher(OFFSET);
    hasher.Bytes(source, first, count);
    hash := hasher.Finish();
  }

  /** Copies and hashes in one pass, within one memory so that the buffers may
      overlap. Unless the target begins inside the source, the copy is exact and the
      hash is that of the bytes as they were. */
  method CopyHash(memory: array<u8>, source: nat, target: nat, count: nat) returns (hash: u64)
    requires source + count <= memory.Length && target + count <= memory.Length
    modifies memory
    ensures target <= source || source + count <= target ==>
              && memory[target..target + count] == old(memory[source..source + count])
              && hash == HashFrom(OFFSET, old(memory[source..source + count]))
    ensures forall k :: 0 <= k < memory.Length && !(target <= k < target + count) ==> memory[k] == old(memory[k])
  {
    hide HashFrom;
    hide Step;
    NothingHashed([]);
    var hasher := new Hasher(OFFSET);
    ghost var from := memory[source..source + count];
    ghost var ahead := target <= source || source + count <= target;
    for index := 0 to count
      invariant fresh(hasher)
      invariant forall k :: 0 <= k < memory.Length && !(target <= k < target + index) ==> memory[k] == old(memory[k])
      invariant ahead ==> memory[target..target + index] == from[..index]
      invariant ahead ==> hasher.value == HashFrom(OFFSET, from[..index])
    {
      var value := memory[source + index];
      memory[target + index] := value;
      hasher.Byte(value);
      if ahead {
        assert memory[target + index] == value == from[index];
        HashExtends(OFFSET, from[..index], value);
        assert from[..index + 1] == from[..index] + [value];
      }
    }
    assert from[..count] == from;
    hash := hasher.Finish();
  }

  // ------------------------------------------------------- zero bytes by squaring

  lemma WrapMulCommutes(a: u64, b: u64)
    ensures WrapMul(a, b) == WrapMul(b, a)
  {
  }

  lemma WrapMulLeft(a: u64, b: u64, c: u64)
    ensures WrapMul(WrapMul(a, b), c) == a * b * c % TWO_64
  {
    MulModLeft(a * b, c, TWO_64);
  }

  lemma WrapMulAssociates(a: u64, b: u64, c: u64)
    ensures WrapMul(WrapMul(a, b), c) == WrapMul(a, WrapMul(b, c))
  {
    WrapMulLeft(a, b, c);
    WrapMulLeft(b, c, a);
    MulRotate(a, b, c);
    WrapMulCommutes(a, WrapMul(b, c));
  }

  lemma WrapMulOne(a: u64)
    ensures WrapMul(a, 1) == a && WrapMul(1, a) == a
  {
  }

  function PowWrap(base: u64, n: nat): u64 {
    if n == 0 then 1 else WrapMul(PowWrap(base, n - 1), base)
  }

  lemma {:induction false} PowOfSquare(base: u64, n: nat)
    ensures PowWrap(WrapMul(base, base), n) == PowWrap(base, 2 * n)
  {
    if n > 0 {
      PowOfSquare(base, n - 1);
      assert PowWrap(base, 2 * n) == WrapMul(PowWrap(base, 2 * n - 1), base);
      assert PowWrap(base, 2 * n - 1) == WrapMul(PowWrap(base, 2 * n - 2), base);
      WrapMulAssociates(PowWrap(base, 2 * n - 2), base, base);
    }
  }

  /** Power n of the base, times a factor, with the lowest digit of n taken off. */
  lemma OddStep(factor: u64, power: u64, k: nat)
    ensures WrapMul(WrapMul(factor, power), PowWrap(WrapMul(power, power), k))
         == WrapMul(factor, PowWrap(power, 2 * k + 1))
  {
    PowOfSquare(power, k);
    WrapMulCommutes(PowWrap(power, 2 * k), power);
    WrapMulAssociates(factor, power, PowWrap(power, 2 * k));
  }

  function Zeros(n: nat): (r: seq<u8>)
    ensures |r| == n
  {
    seq(n, _ => 0)
  }

  lemma {:induction false} ZerosMultiply(seed: u64, n: nat)
    ensures HashFrom(seed, Zeros(n)) == WrapMul(seed, PowWrap(PRIME, n))
  {
    if n == 0 {
      WrapMulOne(seed);
    } else {
      ZerosMultiply(seed, n - 1);
      assert Zeros(n)[..n - 1] == Zeros(n - 1);
      XorZero(HashFrom(seed, Zeros(n - 1)));
      WrapMulAssociates(seed, PowWrap(PRIME, n - 1), PRIME);
    }
  }

  /** Repeated squaring gives the hash of that many zero bytes. */
  method ZeroHash(bytes: nat) returns (hash: u64)
    ensures hash == HashFrom(OFFSET, Zeros(bytes))
  {
    var factor: u64, power: u64, left := 1, PRIME, bytes;
    WrapMulOne(PowWrap(PRIME, bytes));
    while left != 0
      invariant WrapMul(factor, PowWrap(power, left)) == PowWrap(PRIME, bytes)
    {
      if left % 2 != 0 {
        OddStep(factor, power, left / 2);
        factor := WrapMul(factor, power);
      } else {
        PowOfSquare(power, left / 2);
      }
      power := WrapMul(power, power);
      left := left / 2;
    }
    WrapMulOne(factor);
    ZerosMultiply(OFFSET, bytes);
    hash := WrapMul(OFFSET, factor);
  }

  // ------------------------------------------------------------- what it tells apart

  lemma PrimeInverts(x: u64)
    ensures WrapMul(WrapMul(x, PRIME), PRIME_INVERSE) == x
  {
    MulModInverse(x, PRIME, PRIME_INVERSE, TWO_64);
  }

  /** The multiplier is odd, so a step can be undone. */
  lemma StepUndone(hash: u64, byte: u8)
    ensures WrapMul(Step(hash, byte), PRIME_INVERSE) == Xor(hash, byte)
  {
    XorWord(hash, byte);
    PrimeInverts(Xor(hash, byte));
  }

  lemma StepInjective(g: u64, h: u64, x: u8, y: u8)
    requires Step(g, x) == Step(h, y)
    ensures Xor(g, x) == Xor(h, y)
  {
    StepUndone(g, x);
    StepUndone(h, y);
  }

  lemma SameByteSameHash(g: u64, h: u64, x: u8)
    requires Step(g, x) == Step(h, x)
    ensures g == h
  {
    StepInjective(g, h, x, x);
    XorCancels(g, x);
    XorCancels(h, x);
  }

  lemma SameHashSameByte(h: u64, x: u8, y: u8)
    requires Step(h, x) == Step(h, y)
    ensures x == y
  {
    StepInjective(h, h, x, y);
    XorCommutes(h, x);
    XorCommutes(h, y);
    XorCancels(x, h);
    XorCancels(y, h);
  }

  /** A common tail never merges two hashes. */
  lemma {:induction false} TailKeepsApart(g: u64, h: u64, tail: seq<u8>)
    ensures HashFrom(g, tail) == HashFrom(h, tail) <==> g == h
    decreases |tail|
  {
    if tail != [] {
      var last := |tail| - 1;
      TailKeepsApart(g, h, tail[..last]);
      if HashFrom(g, tail) == HashFrom(h, tail) {
        SameByteSameHash(HashFrom(g, tail[..last]), HashFrom(h, tail[..last]), tail[last]);
      }
    }
  }

  lemma {:induction false} HashOfConcat(seed: u64, a: seq<u8>, b: seq<u8>)
    ensures HashFrom(seed, a + b) == HashFrom(HashFrom(seed, a), b)
    decreases |b|
  {
    if b == [] {
      assert a + b == a;
    } else {
      var last := |b| - 1;
      assert (a + b)[..|a + b| - 1] == a + b[..last];
      HashOfConcat(seed, a, b[..last]);
    }
  }

  /** Two inputs that differ in exactly one byte never hash alike. */
  lemma OneByteAlwaysShows(seed: u64, a: seq<u8>, b: seq<u8>, k: nat)
    requires |a| == |b| && k < |a| && a[k] != b[k]
    requires forall i :: 0 <= i < |a| && i != k ==> a[i] == b[i]
    ensures HashFrom(seed, a) != HashFrom(seed, b)
  {
    var head, tail := a[..k], a[k + 1..];
    assert a == head + [a[k]] + tail && b == head + [b[k]] + tail;
    HashOfConcat(seed, head + [a[k]], tail);
    HashOfConcat(seed, head + [b[k]], tail);
    HashExtends(seed, head, a[k]);
    HashExtends(seed, head, b[k]);
    TailKeepsApart(HashFrom(seed, head + [a[k]]), HashFrom(seed, head + [b[k]]), tail);
    if Step(HashFrom(seed, head), a[k]) == Step(HashFrom(seed, head), b[k]) {
      SameHashSameByte(HashFrom(seed, head), a[k], b[k]);
    }
  }

  // --------------------------------------------------------------------- a known hash

  lemma XorLowBit(high: nat, x: nat, byte: nat)
    requires Xor(high + x / 2, byte / 2) == high + Xor(x / 2, byte / 2)
    ensures Xor(2 * high + x, byte) == 2 * high + Xor(x, byte)
  {
    hide Xor;
    XorHalf(2 * high + x, byte);
    XorHalf(x, byte);
  }

  lemma XorLowDigit(h: nat, x: nat, byte: nat)
    requires byte < 16 && x < 16
    ensures Xor(16 * h + x, byte) == 16 * h + Xor(x, byte)
  {
    hide Xor;
    XorZero(h);
    XorZero(0);
    XorLowBit(h, x / 2 / 2 / 2, byte / 2 / 2 / 2);
    XorLowBit(2 * h, x / 2 / 2, byte / 2 / 2);
    XorLowBit(4 * h, x / 2, byte / 2);
    XorLowBit(8 * h, x, byte);
  }

  /** One more byte below sixteen: its digit xored with the lowest one of the hash, and
      the product with the prime modulo 2^64. */
  lemma HashTakes(bytes: seq<u8>, k: nat, high: nat, x: nat, low: nat, wraps: nat, next: u64)
    requires k < |bytes| && bytes[k] < 16 && x < 16 && HashFrom(OFFSET, bytes[..k]) == 16 * high + x
    requires Xor(x, bytes[k]) == low && (16 * high + low) * 1099511628211 == wraps * TWO_64 + next
    ensures HashFrom(OFFSET, bytes[..k + 1]) == next
  {
    hide Xor;
    HashExtends(OFFSET, bytes[..k], bytes[k]);
    assert bytes[..k + 1] == bytes[..k] + [bytes[k]];
    XorLowDigit(high, x, bytes[k]);
    DivUnique((16 * high + low) * PRIME, TWO_64, wraps, next);
  }

  lemma DigitXors()
    ensures Xor(3, 13) == 14 && Xor(7, 4) == 3 && Xor(9, 3) == 10 && Xor(10, 1) == 11 && Xor(11, 6) == 13
    ensures Xor(1, 0) == 1 && Xor(3, 0) == 3 && Xor(9, 0) == 9 && Xor(10, 0) == 10 && Xor(11, 0) == 11
    ensures Xor(14, 0) == 14
  {
    XorZero(1);
    XorZero(3);
    XorZero(9);
    XorZero(10);
    XorZero(11);
    XorZero(14);
    assert Xor(1, 6) == 7 && Xor(3, 2) == 1 && Xor(4, 1) == 5 && Xor(5, 0) == 5 && Xor(5, 3) == 6;
  }

  lemma NothingHashed(bytes: seq<u8>)
    ensures HashFrom(OFFSET, bytes[..0]) == OFFSET
  {
  }

  lemma KnownHashStarts(bytes: seq<u8>)
    requires bytes == [13, 1, 0, 0, 0, 6, 4, 0, 0, 0, 0, 3, 0, 0]
    ensures HashFrom(OFFSET, bytes[..7]) == 2722835072498404409
  {
    hide Xor;
    hide HashFrom;
    NothingHashed(bytes);
    DigitXors();
    HashTakes(bytes, 0, 91849881495916600, 3, 14, 87594872982, 4953175451281197642);
    HashTakes(bytes, 1, 309573465705074852, 10, 11, 295232263400, 11136968674217852273);
    HashTakes(bytes, 2, 696060542138615767, 1, 1, 663815061964, 616980296000939779);
    HashTakes(bytes, 3, 38561268500058736, 3, 3, 36774891391, 1856369236739967513);
    HashTakes(bytes, 4, 116023077296247969, 9, 9, 110648228971, 11521233280963242107);
    HashTakes(bytes, 5, 720077080060202631, 11, 13, 686719017357, 16769498143396138087);
    HashTakes(bytes, 6, 1048093633962258630, 7, 3, 999539980294, 2722835072498404409);
  }

  lemma KnownHashEnds(bytes: seq<u8>)
    requires bytes == [13, 1, 0, 0, 0, 6, 4, 0, 0, 0, 0, 3, 0, 0] && HashFrom(OFFSET, bytes[..7]) == 2722835072498404409
    ensures HashFrom(OFFSET, bytes[..14]) == 14337942912644298094
  {
    hide Xor;
    hide HashFrom;
    DigitXors();
    HashTakes(bytes, 7, 170177192031150275, 9, 9, 162293617342, 8312647021629457627);
    HashTakes(bytes, 8, 519540438851841101, 11, 11, 495472373063, 8421361194395795489);
    HashTakes(bytes, 9, 526335074649737218, 1, 1, 501952242715, 14908083314706462739);
    HashTakes(bytes, 10, 931755207169153921, 3, 3, 888591010606, 10332941905732290633);
    HashTakes(bytes, 11, 645808869108268164, 9, 10, 615891332019, 10814085966531483070);
    HashTakes(bytes, 12, 675880372908217691, 14, 14, 644569752860, 12121293941747266010);
    HashTakes(bytes, 13, 757580871359204125, 10, 10, 722485419901, 14337942912644298094);
  }

  /** The hash of these fourteen bytes. */
  lemma KnownHash(bytes: seq<u8>)
    requires bytes == [13, 1, 0, 0, 0, 6, 4, 0, 0, 0, 0, 3, 0, 0]
    ensures HashFrom(OFFSET, bytes) == 14337942912644298094
  {
    hide HashFrom;
    KnownHashStarts(bytes);
    KnownHashEnds(bytes);
    assert bytes[..14] == bytes;
  }
}
