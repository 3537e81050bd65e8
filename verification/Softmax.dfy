/** Softmax over a row of 32-bit fixed-point logits (math32/include/math32/prob/softmax.hpp
    and kernel.hpp, math32/include/math32/nonlinear/exp.hpp). */
module Softmax {
  import opened Words
  import opened FixedPoint
  import opened RowMax
  import FixedLane

  const ONE: int := 0x8000_0000
  const HALF: int := 0x4000_0000

  // -------------------------------------------------------------------- one weight

  function AddSat(a: int, b: int): (r: i32) {
    Clamp(W32, a + b)
  }

  /** Shifting a signed lane left by four bits wraps. */
  function ShiftLeft4(x: int): (r: i32)
    ensures (x * 16 - r) % TWO_32 == 0
  {
    (x * 16 + ONE) % TWO_32 - ONE
  }

  function ClampTo(x: i32, lower: i32, upper: i32): i32 {
    Min(Max(x, lower), upper)
  }

  function Abs(x: i32): i32 {
    if x == MIN_32 then MAX_32 else if x < 0 then -x else x
  }

  /** ExpC6 down to ExpC1, and the one they are added to. */
  const COEFFICIENTS: seq<i32> := [330788, -2863360, 20654775, -119194166, 515882496, -1488522236, MAX_32]

  /** Horner's rule with a saturating step, in the vector form. */
  function Polynomial(c: seq<i32>, unit: i32): i32
    requires c != []
  {
    var last := |c| - 1;
    if last == 0 then c[0] else AddSat(c[last], FixedLane.LaneMulFixed32(Polynomial(c[..last], unit), unit))
  }

  /** The same in the scalar form. */
  function ScalarPolynomial(c: seq<i32>, unit: i32): i32
    requires c != []
  {
    var last := |c| - 1;
    if last == 0 then c[0] else AddSat(c[last], MulFixed(W32, ScalarPolynomial(c[..last], unit), unit))
  }

  function Exp2(value: i32): (r: i32)
    ensures HALF <= r <= MAX_32
  {
    var approximated := ClampTo(Polynomial(COEFFICIENTS, Abs(value)), HALF, MAX_32);
    if value == MIN_32 then HALF else if value >= 0 then MAX_32 else approximated
  }

  function ScalarExp2(value: i32): i32 {
    if value >= 0 then MAX_32
    else if value == MIN_32 then HALF
    else ClampTo(ScalarPolynomial(COEFFICIENTS, Abs(value)), HALF, MAX_32)
  }

  lemma {:induction false} PolynomialsAgree(c: seq<i32>, unit: i32)
    requires c != []
    ensures Polynomial(c, unit) == ScalarPolynomial(c, unit)
  {
    var last := |c| - 1;
    if last > 0 {
      PolynomialsAgree(c[..last], unit);
      FixedLane.LaneMulIsScalar(W32, Polynomial(c[..last], unit), unit);
    }
  }

  /** The vector exponential is the scalar one. */
  lemma LaneExp2IsScalar(value: i32)
    ensures Exp2(value) == ScalarExp2(value)
  {
    PolynomialsAgree(COEFFICIENTS, Abs(value));
  }

  /** Weight of a logit in a row with this maximum: never below one half. */
  function Weight(logit: i32, maximum: i32): (r: i32)
    ensures HALF <= r <= MAX_32
  {
    Max(Exp2(ClampTo(ShiftLeft4(Clamp(W32, logit - maximum)), MIN_32, 0)), 0)
  }

  /** The weights of one row. What follows holds for any weights of this size. */
  type Weigher = i32 -> i32

  function WeigherOf(maximum: i32): Weigher {
    (logit: i32) => Weight(logit, maximum)
  }

  ghost predicate Heavy(f: Weigher) {
    forall x: i32 :: HALF <= f(x) <= MAX_32
  }

  lemma WeightsAreHeavy(maximum: i32)
    ensures Heavy(WeigherOf(maximum))
  {
    forall x: i32 | true
      ensures HALF <= WeigherOf(maximum)(x) <= MAX_32
    {
      assert WeigherOf(maximum)(x) == Weight(x, maximum);
    }
  }

  // -------------------------------------------------------------------- their sum

  function WeightSum(row: seq<i32>, f: Weigher, k: nat): int
    requires k <= |row|
  {
    if k == 0 then 0 else WeightSum(row, f, k - 1) + f(row[k - 1])
  }

  lemma {:induction false} WeightsAddUp(row: seq<i32>, f: Weigher, k: nat)
    requires k <= |row| && Heavy(f)
    ensures HALF * k <= WeightSum(row, f, k) <= MAX_32 * k
  {
    if k > 0 {
      WeightsAddUp(row, f, k - 1);
    }
  }

  /** Four weights; past the end of the row they are masked to zero. */
  function LaneWeight(row: seq<i32>, at: nat, f: Weigher, lane: nat): int {
    if at + lane < |row| then f(row[at + lane]) else 0
  }

  function ExpWeights(row: seq<i32>, at: nat, f: Weigher): (r: seq<int>)
    ensures |r| == 4
    ensures forall k :: 0 <= k < 4 ==> r[k] == LaneWeight(row, at, f, k)
  {
    var loaded := LoadLanes(row, at, MIN_32);
    var weights := seq(4, k requires 0 <= k < 4 => f(loaded[k]));
    seq(4, k requires 0 <= k < 4 => if at + k < |row| then weights[k] else 0)
  }

  /** Wide addition with a carry test; it saturates. */
  function AddSatWide(a: u64, b: u64): (r: u64)
    ensures r == Min(a + b, U64_MAX)
  {
    var sum := WrapAdd(a, b);
    if a > sum then U64_MAX else sum
  }

  function Sum4(s: seq<int>): int
    requires |s| == 4
  {
    s[0] + s[1] + s[2] + s[3]
  }

  /** The accumulators hold these exact sums, each saturated. */
  ghost predicate Saturates(lanes: seq<u64>, exact: seq<int>) {
    |lanes| == |exact| == 4 && forall k :: 0 <= k < 4 ==> 0 <= exact[k] && lanes[k] == Min(exact[k], U64_MAX)
  }

  lemma BlockSum(row: seq<i32>, f: Weigher, at: nat)
    requires at <= |row|
    ensures var w := ExpWeights(row, at, f);
            WeightSum(row, f, Min(at + 4, |row|)) == WeightSum(row, f, at) + w[0] + w[1] + w[2] + w[3]
  {
    LaneSum(row, f, at, 0);
    LaneSum(row, f, at, 1);
    LaneSum(row, f, at, 2);
    LaneSum(row, f, at, 3);
  }

  lemma LaneSum(row: seq<i32>, f: Weigher, at: nat, lane: nat)
    requires at <= |row|
    ensures WeightSum(row, f, Min(at + lane + 1, |row|))
         == WeightSum(row, f, Min(at + lane, |row|)) + LaneWeight(row, at, f, lane)
  {
  }

  method AddBlock(row: seq<i32>, f: Weigher, at: nat, lanes: seq<u64>, ghost exact: seq<int>)
    returns (next: seq<u64>, ghost sums: seq<int>)
    requires at <= |row| && Heavy(f) && Saturates(lanes, exact) && Sum4(exact) == WeightSum(row, f, at)
    ensures Saturates(next, sums) && Sum4(sums) == WeightSum(row, f, Min(at + 4, |row|))
  {
    var w := ExpWeights(row, at, f);
    BlockSum(row, f, at);
    next := [AddSatWide(lanes[0], w[0]), AddSatWide(lanes[1], w[1]), AddSatWide(lanes[2], w[2]),
          AddSatWide(lanes[3], w[3])];
    sums := [exact[0] + w[0], exact[1] + w[1], exact[2] + w[2], exact[3] + w[3]];
  }

  /** The four saturating accumulators, reduced, give the saturated sum of the row. */
  method WeightSumQ1_31(row: seq<i32>, f: Weigher) returns (sum: u64)
    requires Heavy(f)
    ensures sum == Min(WeightSum(row, f, |row|), U64_MAX)
  {
    var lanes: seq<u64>, index := [0, 0, 0, 0], 0;
    ghost var exact: seq<int> := [0, 0, 0, 0];
    while index + 4 <= |row|
      invariant index <= |row| && Saturates(lanes, exact) && Sum4(exact) == WeightSum(row, f, index)
    {
      lanes, exact := AddBlock(row, f, index, lanes, exact);
      index := index + 4;
    }
    if index < |row| {
      lanes, exact := AddBlock(row, f, index, lanes, exact);
    }
    sum := ReduceAddSatWide(lanes, exact);
  }

  method ReduceAddSatWide(lanes: seq<u64>, ghost exact: seq<int>) returns (sum: u64)
    requires Saturates(lanes, exact)
    ensures sum == Min(Sum4(exact), U64_MAX)
  {
    sum := 0;
    ghost var total := 0;
    for k := 0 to 4
      invariant sum == Min(total, U64_MAX) && 0 <= total
      invariant total == (if k > 0 then exact[0] else 0) + (if k > 1 then exact[1] else 0)
                         + (if k > 2 then exact[2] else 0) + (if k > 3 then exact[3] else 0)
    {
      sum, total := SatAdd(sum, lanes[k]), total + exact[k];
    }
  }

  // ------------------------------------------------------------------ normalising

  function Share(weight: int, denominator: int): int {
    weight * ONE / if denominator == 0 then 1 else denominator
  }

  function Normalized(weight: int, denominator: int): int {
    Min(Share(weight, denominator), MAX_32)
  }

  method NormalizeLane(weight: int, denominator: u64) returns (r: i32)
    requires 0 <= weight <= MAX_32
    ensures r == Normalized(weight, denominator)
  {
    FixedLane.NumeratorFits(W32, weight * ONE, weight);
    var quotient := FixedLane.UnsignedDiv(W32, weight * ONE, denominator);
    r := Min(quotient, MAX_32);
  }

  method NormalizeWeights(weights: seq<int>, denominator: u64) returns (r: seq<i32>)
    requires |weights| == 4 && forall k :: 0 <= k < 4 ==> 0 <= weights[k] <= MAX_32
    ensures |r| == 4 && forall k :: 0 <= k < 4 ==> r[k] == Normalized(weights[k], denominator)
  {
    var r0 := NormalizeLane(weights[0], denominator);
    var r1 := NormalizeLane(weights[1], denominator);
    var r2 := NormalizeLane(weights[2], denominator);
    var r3 := NormalizeLane(weights[3], denominator);
    r := [r0, r1, r2, r3];
  }

  // ------------------------------------------------------------------ the whole row

  ghost predicate IsMaximum(row: seq<i32>, m: i32) {
    (forall i :: 0 <= i < |row| ==> row[i] <= m) && m in row
  }

  datatype RowStatus = RowStatus(processed: u32, sizeMatch: bool, overlapOk: bool, emptyInput: bool, zeroSum: bool)

  function ScalarSatU32(n: nat): u32 {
    Min(n, TWO_32 - 1)
  }

  /** Two spans of one memory that share some cells but are not the same. */
  predicate PartiallyOverlaps(a: nat, aSize: nat, b: nat, bSize: nat) {
    && aSize != 0 && bSize != 0
    && (if a <= b then b - a < aSize else a - b < bSize)
    && !(a == b && aSize == bSize)
  }

  function ValidateRow(input: nat, inputSize: nat, out: nat, outSize: nat): RowStatus {
    if inputSize != outSize then RowStatus(0, false, true, false, false)
    else if PartiallyOverlaps(input, inputSize, out, outSize) then RowStatus(0, true, false, false, false)
    else if inputSize == 0 then RowStatus(0, true, true, true, false)
    else RowStatus(ScalarSatU32(outSize), true, true, false, false)
  }

  /** The softmax of a row, entry by entry. */
  ghost predicate IsSoftmax(out: seq<i32>, row: seq<i32>, f: Weigher) {
    && |out| == |row|
    && forall i :: 0 <= i < |row| ==>
         out[i] == Normalized(f(row[i]), Min(WeightSum(row, f, |row|), U64_MAX))
  }

  /** Stores the lanes that lie inside the row. */
  method StoreLanes(memory: array<i32>, first: nat, size: nat, at: nat, lanes: seq<i32>)
    requires |lanes| == 4 && first + size <= memory.Length && at <= size
    modifies memory
    ensures forall k :: 0 <= k < memory.Length ==>
              memory[k] == if first + at <= k < first + Min(at + 4, size) then lanes[k - first - at] else old(memory[k])
  {
    var lane := 0;
    while lane < 4 && at + lane < size
      invariant lane <= 4 && at + lane <= Max(at, size)
      invariant forall k :: 0 <= k < memory.Length ==>
                  memory[k] == if first + at <= k < first + at + lane then lanes[k - first - at] else old(memory[k])
    {
      memory[first + at + lane] := lanes[lane];
      lane := lane + 1;
    }
  }

  /** The cells before `at` hold the softmax of the row; the others are untouched. */
  ghost predicate NormalizedTo(now: seq<i32>, before: seq<i32>, row: seq<i32>, out: nat, at: nat, f: Weigher,
        denominator: u64)
    requires |before| == |now| && out + at <= |now| && at <= |row|
  {
    && (forall k :: 0 <= k < |now| && !(out <= k < out + at) ==> now[k] == before[k])
    && (forall k :: out <= k < out + at ==> now[k] == Normalized(f(row[k - out]), denominator))
  }

  /** One block: its logits are read before its outputs are stored, so the two spans
      may be the same. */
  method NormalizeBlock(memory: array<i32>, logits: nat, out: nat, size: nat, at: nat, f: Weigher, denominator: u64,
                        ghost before: seq<i32>, ghost row: seq<i32>)
    requires logits + size <= memory.Length == |before| && out + size <= memory.Length && at < size
    requires !PartiallyOverlaps(logits, size, out, size) && Heavy(f) && row == before[logits..logits + size]
    requires NormalizedTo(memory[..], before, row, out, at, f, denominator)
    modifies memory
    ensures NormalizedTo(memory[..], before, row, out, Min(at + 4, size), f, denominator)
  {
    var left := memory[logits..logits + size];
    var weights := ExpWeights(left, at, f);
    assert forall i :: at <= i < size ==> left[i] == row[i];
    var lanes := NormalizeWeights(weights, denominator);
    StoreLanes(memory, out, size, at, lanes);
  }

  method NormalizeRow(memory: array<i32>, logits: nat, out: nat, size: nat, f: Weigher, denominator: u64)
    requires logits + size <= memory.Length && out + size <= memory.Length
    requires !PartiallyOverlaps(logits, size, out, size) && Heavy(f)
    modifies memory
    ensures NormalizedTo(memory[..], old(memory[..]), old(memory[logits..logits + size]), out, size, f, denominator)
  {
    ghost var before, row := memory[..], memory[logits..logits + size];
    var index := 0;
    while index + 4 <= size
      invariant index <= size && NormalizedTo(memory[..], before, row, out, index, f, denominator)
    {
      NormalizeBlock(memory, logits, out, size, index, f, denominator, before, row);
      index := index + 4;
    }
    if index < size {
      NormalizeBlock(memory, logits, out, size, index, f, denominator, before, row);
    }
  }

  /** The part of SoftmaxApprox that follows the checks, for given weights. */
  method SoftmaxRow(memory: array<i32>, logits: nat, out: nat, size: nat, row: seq<i32>, f: Weigher)
    returns (zeroSum: bool)
    requires logits + size <= memory.Length && out + size <= memory.Length && size > 0
    requires !PartiallyOverlaps(logits, size, out, size) && Heavy(f) && row == memory[logits..logits + size]
    modifies memory
    ensures !zeroSum && IsSoftmax(memory[out..out + size], row, f)
    ensures forall k :: 0 <= k < memory.Length && !(out <= k < out + size) ==> memory[k] == old(memory[k])
  {
    var denominator := WeightSumQ1_31(row, f);
    WeightsAddUp(row, f, |row|);
    if denominator == 0 {
      return true;
    }
    NormalizeRow(memory, logits, out, size, f, denominator);
    zeroSum := false;
  }

  /** The softmax of this row, by its own maximum. */
  ghost predicate IsRowSoftmax(out: seq<i32>, row: seq<i32>) {
    exists m: i32 :: IsMaximum(row, m) && IsSoftmax(out, row, WeigherOf(m))
  }

  lemma MaximumUnique(row: seq<i32>, m: i32, n: i32)
    requires IsMaximum(row, m) && IsMaximum(row, n)
    ensures m == n
  {
    var i :| 0 <= i < |row| && row[i] == m;
    var j :| 0 <= j < |row| && row[j] == n;
  }

  lemma SoftmaxUnique(a: seq<i32>, b: seq<i32>, row: seq<i32>, f: Weigher)
    requires IsSoftmax(a, row, f) && IsSoftmax(b, row, f)
    ensures a == b
  {
  }

  /** A row has one softmax: written in place or into another span, it is the same. */
  lemma RowSoftmaxUnique(a: seq<i32>, b: seq<i32>, row: seq<i32>)
    requires IsRowSoftmax(a, row) && IsRowSoftmax(b, row)
    ensures a == b
  {
    var m: i32 :| IsMaximum(row, m) && IsSoftmax(a, row, WeigherOf(m));
    var n: i32 :| IsMaximum(row, n) && IsSoftmax(b, row, WeigherOf(n));
    MaximumUnique(row, m, n);
    SoftmaxUnique(a, b, row, WeigherOf(m));
  }

  method SoftmaxChecked(memory: array<i32>, logits: nat, out: nat, size: nat, ghost row: seq<i32>)
    returns (zeroSum: bool)
    requires logits + size <= memory.Length && out + size <= memory.Length && size > 0
    requires !PartiallyOverlaps(logits, size, out, size) && row == memory[logits..logits + size]
    modifies memory
    ensures !zeroSum && IsRowSoftmax(memory[out..out + size], row)
    ensures forall k :: 0 <= k < memory.Length && !(out <= k < out + size) ==> memory[k] == old(memory[k])
  {
    var max := MaxOf(memory[logits..logits + size]);
    WeightsAreHeavy(max.value);
    zeroSum := SoftmaxRow(memory, logits, out, size, memory[logits..logits + size], WeigherOf(max.value));
    assert IsMaximum(row, max.value);
  }

  /** Softmax from one span of a memory into another, which may be the same one: the
      output is the softmax of the logits as they were, and nothing else changes. A
      zero sum never happens. */
  method SoftmaxApprox(memory: array<i32>, logits: nat, size: nat, out: nat, outSize: nat) returns (status: RowStatus)
    requires logits + size <= memory.Length && out + outSize <= memory.Length
    modifies memory
    ensures status == ValidateRow(logits, size, out, outSize)
    ensures forall k :: 0 <= k < memory.Length && !(out <= k < out + outSize) ==> memory[k] == old(memory[k])
    ensures if status.sizeMatch && status.overlapOk && !status.emptyInput
            then size == outSize && IsRowSoftmax(memory[out..out + size], old(memory[logits..logits + size]))
            else memory[..] == old(memory[..])
  {
    ghost var row := memory[logits..logits + size];
    status := ValidateRow(logits, size, out, outSize);
    if !status.sizeMatch || !status.overlapOk || status.emptyInput {
      return;
    }
    var zeroSum := SoftmaxChecked(memory, logits, out, size, row);
    if zeroSum {
      status := RowStatus(status.processed, true, true, false, true);
    }
  }

  // --------------------------------------------------------------------- the mass

  function ShareSum(row: seq<i32>, f: Weigher, denominator: int, k: nat): int
    requires k <= |row|
  {
    if k == 0 then 0 else ShareSum(row, f, denominator, k - 1) + Share(f(row[k - 1]), denominator)
  }

  function Total(out: seq<i32>): int {
    if out == [] then 0 else Total(out[..|out| - 1]) + out[|out| - 1]
  }

  lemma ShareBounds(weight: nat, d: nat)
    requires d > 0
    ensures Share(weight, d) * d <= weight * ONE < Share(weight, d) * d + d
  {
  }

  lemma OneShareMore(before: int, share: int, k: nat, d: nat)
    ensures (before + share) * d == before * d + share * d
    ensures (before + share + k) * d == (before + (k - 1)) * d + share * d + d
  {
  }

  /** Rounding each share down loses less than one unit apiece. */
  lemma {:induction false} SharesBounded(row: seq<i32>, f: Weigher, d: nat, k: nat)
    requires Heavy(f) && k <= |row| && d > 0
    ensures ShareSum(row, f, d, k) * d <= WeightSum(row, f, k) * ONE
    ensures WeightSum(row, f, k) * ONE <= (ShareSum(row, f, d, k) + k) * d
  {
    if k > 0 {
      hide Share;
      SharesBounded(row, f, d, k - 1);
      var w, before := f(row[k - 1]), ShareSum(row, f, d, k - 1);
      ShareBounds(w, d);
      OneShareMore(before, Share(w, d), k, d);
    }
  }

  lemma {:induction false} OthersWeigh(row: seq<i32>, f: Weigher, i: nat, k: nat)
    requires Heavy(f) && i < |row| && k <= |row|
    ensures WeightSum(row, f, k) >= if i < k then f(row[i]) + (k - 1) else k
  {
    if k > 0 {
      OthersWeigh(row, f, i, k - 1);
    }
  }

  /** With more than one entry no share reaches one, so no output is clamped. */
  lemma ShareBelowOne(row: seq<i32>, f: Weigher, i: nat)
    requires Heavy(f) && i < |row| && |row| > 1
    ensures Share(f(row[i]), WeightSum(row, f, |row|)) <= MAX_32
  {
    var w, d := f(row[i]), WeightSum(row, f, |row|);
    OthersWeigh(row, f, i, |row|);
    ShareBounds(w, d);
    MulMonotone(w, d - 1, ONE);
    assert (d - 1) * ONE == d * ONE - ONE;
    MulMonotone(ONE, Share(w, d), d);
  }

  lemma {:induction false} TotalIsShares(out: seq<i32>, row: seq<i32>, f: Weigher, k: nat)
    requires Heavy(f) && IsSoftmax(out, row, f) && |row| > 1 && k <= |row|
    requires WeightSum(row, f, |row|) <= U64_MAX
    ensures Total(out[..k]) == ShareSum(row, f, WeightSum(row, f, |row|), k)
  {
    if k > 0 {
      TotalIsShares(out, row, f, k - 1);
      ShareBelowOne(row, f, k - 1);
      assert out[..k][..k - 1] == out[..k - 1];
    }
  }

  lemma SaturatedShare(weight: nat)
    requires weight <= MAX_32
    ensures Share(weight, U64_MAX) == 0
  {
    MulMonotone(weight, MAX_32, ONE);
    DivUnique(weight * ONE, U64_MAX, 0, weight * ONE);
  }

  lemma {:induction false} TotalOfZeros(out: seq<i32>)
    requires forall i :: 0 <= i < |out| ==> out[i] == 0
    ensures Total(out) == 0
  {
    if out != [] {
      TotalOfZeros(out[..|out| - 1]);
    }
  }

  /** A row whose sum saturates has more than 2^31 entries, and every output is zero. */
  lemma SaturatedRowIsZero(out: seq<i32>, row: seq<i32>, f: Weigher)
    requires Heavy(f) && IsSoftmax(out, row, f) && WeightSum(row, f, |row|) > U64_MAX
    ensures |row| > ONE && forall i :: 0 <= i < |out| ==> out[i] == 0
  {
    WeightsAddUp(row, f, |row|);
    forall i | 0 <= i < |out|
      ensures out[i] == 0
    {
      SaturatedShare(f(row[i]));
    }
  }

  lemma UnsaturatedMass(out: seq<i32>, row: seq<i32>, f: Weigher)
    requires Heavy(f) && row != [] && IsSoftmax(out, row, f) && WeightSum(row, f, |row|) <= U64_MAX
    ensures ONE - |row| <= Total(out) <= ONE
  {
    var d := WeightSum(row, f, |row|);
    WeightsAddUp(row, f, |row|);
    if |row| == 1 {
      assert WeightSum(row, f, 0) == 0 && d == f(row[0]);
      DivUnique(d * ONE, d, ONE, 0);
      assert Total(out[..0]) == 0;
    } else {
      SharesBounded(row, f, d, |row|);
      TotalIsShares(out, row, f, |row|);
      assert out[..|row|] == out;
      var s := ShareSum(row, f, d, |row|);
      MulMonotone(ONE + 1, s, d);
      MulMonotone(s + |row|, ONE - 1, d);
    }
  }

  /** The outputs add up to one, less at most one unit per entry, whether or not the sum
      of the weights saturates. */
  lemma SoftmaxMass(out: seq<i32>, row: seq<i32>, f: Weigher)
    requires Heavy(f) && row != [] && IsSoftmax(out, row, f)
    ensures ONE - |row| <= Total(out) <= ONE
  {
    if WeightSum(row, f, |row|) <= U64_MAX {
      UnsaturatedMass(out, row, f);
    } else {
      SaturatedRowIsZero(out, row, f);
      TotalOfZeros(out);
    }
  }

  /** What SoftmaxApprox stores adds up to one, less at most one unit per entry. */
  lemma RowSoftmaxMass(out: seq<i32>, row: seq<i32>)
    requires row != [] && IsRowSoftmax(out, row)
    ensures ONE - |row| <= Total(out) <= ONE
  {
    var m: i32 :| IsMaximum(row, m) && IsSoftmax(out, row, WeigherOf(m));
    WeightsAreHeavy(m);
    SoftmaxMass(out, row, WeigherOf(m));
  }
}
