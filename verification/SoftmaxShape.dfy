/** What the weights of a softmax row look like, and so its outputs: how a weight falls
    with the distance from the maximum, and where it starts again
    (math32/include/math32/prob/kernel.hpp, math32/include/math32/nonlinear/exp.hpp). */
module SoftmaxShape {
  import opened Words
  import opened FixedPoint
  import opened RowMax
  import opened Softmax

  /** Logits have 27 fraction bits: this is one. */
  const UNIT: int := 0x800_0000

  /** How far below the maximum a logit counts as being. Shifted by four bits, its
      distance loses all multiples of two units, and what is then more than one unit
      counts as none. */
  function Depth(logit: i32, maximum: i32): (e: nat)
    ensures e <= UNIT
  {
    var e := Max(Min(maximum - logit, ONE), 1 - ONE) % 0x1000_0000;
    if e <= UNIT then e else 0
  }

  // -------------------------------------------------------------- the falling weight

  const MAGNITUDES: seq<nat> := [330788, 2863360, 20654775, 119194166, 515882496, 1488522236, 0x7FFF_FFFF]

  /** Horner's rule on the magnitudes: the signs alternate. */
  function Fall(k: nat, unit: nat): int
    requires k < 7
  {
    if k == 0 then MAGNITUDES[0] else MAGNITUDES[k] - Fall(k - 1, unit) * unit / ONE
  }

  /** The least that stage k comes to. */
  function Floor(k: nat): nat
    requires k < 7
  {
    if k == 0 then MAGNITUDES[0] else MAGNITUDES[k] - MAGNITUDES[k - 1]
  }

  lemma ProductShrinks(x: nat, unit: nat)
    requires unit <= ONE
    ensures 0 <= x * unit / ONE <= x
  {
    MulMonotone(unit, ONE, x);
    DivMonotone(x * unit, x * ONE, ONE);
    DivUnique(x * ONE, ONE, x, 0);
  }

  lemma {:induction false} FallBounds(k: nat, unit: nat)
    requires k < 7 && unit <= ONE
    ensures Floor(k) <= Fall(k, unit) <= MAGNITUDES[k]
  {
    if k > 0 {
      FallBounds(k - 1, unit);
      ProductShrinks(Fall(k - 1, unit), unit);
    }
  }

  lemma SignedProduct(x: nat, unit: i32)
    requires 0 <= unit && x <= MAX_32
    ensures MulFixed(W32, x, unit) == x * unit / ONE && MulFixed(W32, 0 - x, unit) == 0 - x * unit / ONE
  {
    ProductShrinks(x, unit);
    assert (0 - x) * unit == 0 - x * unit;
  }

  lemma CoefficientSigns(k: nat)
    requires k < 7
    ensures var m: int := MAGNITUDES[k]; COEFFICIENTS[k] == if k % 2 == 0 then m else -m
  {
  }

  lemma HornerStep(c: seq<i32>, k: nat, unit: i32)
    requires 0 < k < |c|
    ensures ScalarPolynomial(c[..k + 1], unit)
         == AddSat(c[k], MulFixed(W32, ScalarPolynomial(c[..k], unit), unit))
  {
    hide MulFixed;
    hide AddSat;
    assert c[..k + 1][..k] == c[..k];
  }

  lemma FirstStage(unit: i32)
    requires 0 <= unit
    ensures ScalarPolynomial(COEFFICIENTS[..1], unit) == Fall(0, unit)
  {
  }

  lemma {:induction false} PolynomialFalls(k: nat, unit: i32)
    requires k < 7 && 0 <= unit
    ensures ScalarPolynomial(COEFFICIENTS[..k + 1], unit) == if k % 2 == 0 then Fall(k, unit) else 0 - Fall(k, unit)
  {
    hide ScalarPolynomial;
    hide AddSat;
    hide MulFixed;
    hide Fall;
    if k == 0 {
      FirstStage(unit);
    } else {
      HornerStep(COEFFICIENTS, k, unit);
      PolynomialFalls(k - 1, unit);
      SignedStep(k, unit);
    }
  }

  lemma SignedStep(k: nat, unit: i32)
    requires 0 < k < 7 && 0 <= unit
    ensures var x := Fall(k - 1, unit);
            AddSat(COEFFICIENTS[k], MulFixed(W32, if k % 2 == 1 then x else 0 - x, unit))
            == if k % 2 == 0 then Fall(k, unit) else 0 - Fall(k, unit)
  {
    hide MulFixed;
    CoefficientSigns(k);
    FallBounds(k, unit);
    FallBounds(k - 1, unit);
    ProductShrinks(Fall(k - 1, unit), unit);
    SignedProduct(Fall(k - 1, unit), unit);
  }

  /** The weight at a depth: one at the top, one half a unit below. */
  function Falling(e: nat): (r: int)
    requires e <= UNIT
  {
    if e == UNIT then HALF else Fall(6, 16 * e)
  }

  // ------------------------------------------------------------------ it does fall

  /** How much stage k loses when the logit is one raw unit lower. */
  function Drop(k: nat, unit: nat): int
    requires k < 7
  {
    Fall(k, unit) - Fall(k, unit + 16)
  }

  const LEAST_DROPS: seq<int> := [0, 0, -1, -1, -2, 0, 1]
  const MOST_DROPS: seq<int> := [0, 1, 1, 2, 2, 6, 12]

  lemma FloorMoves(x: int, p: int, low: int, high: int)
    requires low * ONE <= p <= high * ONE
    ensures low <= (x + p) / ONE - x / ONE <= high
  {
    DivMonotone(x + low * ONE, x + p, ONE);
    DivMonotone(x + p, x + high * ONE, ONE);
  }

  lemma ProductMoves(x: int, drop: int, unit: nat)
    ensures (x - drop) * (unit + 16) == x * unit + (16 * (x - drop) - drop * unit)
  {
  }

  lemma DropRange(drop: int, low: int, high: int, unit: nat)
    requires low <= drop <= high && low <= 0 <= high && unit <= ONE
    ensures low * ONE <= drop * unit <= high * ONE
  {
    MulMonotone(low, drop, unit);
    MulMonotone(drop, high, unit);
    MulMonotone(unit, ONE, high);
    MulMonotone(unit, ONE, -low);
    assert -low * unit == -(low * unit) && -low * ONE == -(low * ONE);
  }

  /** Each stage moves by a few units at most, and the last one always falls: no rounding
      of the earlier stages makes up for it. */
  lemma {:induction false} DropBounds(k: nat, unit: nat)
    requires k < 7 && unit + 16 <= ONE
    ensures LEAST_DROPS[k] <= Drop(k, unit) <= MOST_DROPS[k]
  {
    if k > 0 {
      DropBounds(k - 1, unit);
      FallBounds(k - 1, unit + 16);
      var x, d := Fall(k - 1, unit), Drop(k - 1, unit);
      DropRange(d, LEAST_DROPS[k - 1], MOST_DROPS[k - 1], unit);
      ProductMoves(x, d, unit);
      FloorMoves(x * unit, 16 * (x - d) - d * unit, LEAST_DROPS[k], MOST_DROPS[k]);
    }
  }

  lemma {:induction false} FallsOn(e: nat, f: nat)
    requires e < f && 16 * f <= ONE
    ensures Fall(6, 16 * f) < Fall(6, 16 * e)
    decreases f - e
  {
    DropBounds(6, 16 * e);
    if e + 1 < f {
      FallsOn(e + 1, f);
    }
  }

  lemma FallAtEnds()
    ensures Fall(6, 0) == MAX_32 && Fall(6, ONE) == 1073771944
  {
  }

  /** The weight falls strictly, raw unit by raw unit, from one to one half. */
  lemma WeightFalls(e: nat, f: nat)
    requires e < f <= UNIT
    ensures HALF <= Falling(f) < Falling(e) <= MAX_32
  {
    hide Fall;
    FallAtEnds();
    if f < UNIT {
      FallsOn(f, UNIT);
      FallsOn(e, f);
    } else {
      FallsOn(e, UNIT);
    }
    if e > 0 {
      FallsOn(0, e);
    }
  }

  // --------------------------------------------------------------- every weight

  lemma ShiftedDepth(diff: i32)
    ensures var e := (0 - diff) % (2 * UNIT);
            ShiftLeft4(diff) == if e <= UNIT then 0 - 16 * e else TWO_32 - 16 * e
  {
    var m, k := 2 * UNIT, (0 - diff) / (2 * UNIT);
    var e := (0 - diff) % m;
    assert 0 - diff == k * m + e;
    if e <= UNIT {
      DivUnique(diff * 16 + ONE, TWO_32, 0 - k, ONE - 16 * e);
    } else {
      DivUnique(diff * 16 + ONE, TWO_32, 0 - k - 1, TWO_32 + ONE - 16 * e);
    }
  }

  lemma ExponentialFalls(e: nat)
    requires e <= UNIT
    ensures ClampTo(0 - 16 * e, MIN_32, 0) == 0 - 16 * e && Exp2(0 - 16 * e) == Falling(e)
  {
    hide Exp2;
    hide ScalarPolynomial;
    hide Fall;
    LaneExp2IsScalar(0 - 16 * e);
    FallAtEnds();
    if 0 < e < UNIT {
      WeightFalls(e, UNIT);
      WeightFalls(0, e);
      WholePolynomialFalls(16 * e);
    }
  }

  lemma WholePolynomialFalls(unit: i32)
    requires 0 <= unit
    ensures ScalarPolynomial(COEFFICIENTS, unit) == Fall(6, unit)
  {
    hide ScalarPolynomial;
    hide Fall;
    assert COEFFICIENTS[..7] == COEFFICIENTS;
    PolynomialFalls(6, unit);
  }

  /** The weight of every logit under every maximum: what it falls to at its depth. */
  lemma WeightAtDepth(logit: i32, maximum: i32)
    ensures Weight(logit, maximum) == Falling(Depth(logit, maximum))
  {
    hide Exp2;
    hide Fall;
    FallAtEnds();
    var diff := Clamp(W32, logit - maximum);
    ShiftedDepth(diff);
    ExponentialFalls(Depth(logit, maximum));
    if Depth(logit, maximum) > 0 {
      WeightFalls(Depth(logit, maximum) - 1, Depth(logit, maximum));
    }
  }

  // ------------------------------------------------------- against the exponential

  /** A sixteenth of a unit. */
  const STEP: int := 0x80_0000

  /** The weights at whole sixteenths. */
  const ANCHORS: seq<nat> :=
    [2147483647, 2056437386, 1969251187, 1885761398, 1805811303, 1729250835,
     1655936297, 1585730096, 1518500494, 1454121377, 1392472026, 1333436915,
     1276905520, 1222772134, 1170935711, 1121299703, 1073741824]

  /** A number multiplied by itself, as a fraction of one. */
  function Square(x: nat): nat {
    x * x / ONE
  }

  function Power16(x: nat): nat {
    Square(Square(Square(Square(x))))
  }

  /** The sixteenth power of this weight is 2^(-k), to one part in two thousand. */
  predicate NearRoot(weight: nat, k: nat) {
    2047 * ONE <= 2048 * (Power16(weight) * Pow2(k)) <= 2049 * ONE
  }

  /** The stages at a whole sixteenth, in small numbers. */
  function Stage(s: nat, k: nat): int
    requires s < 7
  {
    if s == 0 then MAGNITUDES[0] else MAGNITUDES[s] - Stage(s - 1, k) * k / 16
  }

  lemma {:induction false} Sixteenths(s: nat, k: nat)
    requires s < 7
    ensures Fall(s, 16 * (k * STEP)) == Stage(s, k)
  {
    if s > 0 {
      Sixteenths(s - 1, k);
      var x := Stage(s - 1, k);
      assert x * (16 * (k * STEP)) == x * k * UNIT;
      DivUnique(x * k * UNIT, ONE, x * k / 16, x * k % 16 * UNIT);
    }
  }

  lemma PowerIs(x: nat, x2: nat, x4: nat, x8: nat, x16: nat)
    requires x2 * 0x8000_0000 <= x * x < (x2 + 1) * 0x8000_0000
    requires x4 * 0x8000_0000 <= x2 * x2 < (x4 + 1) * 0x8000_0000
    requires x8 * 0x8000_0000 <= x4 * x4 < (x8 + 1) * 0x8000_0000
    requires x16 * 0x8000_0000 <= x8 * x8 < (x16 + 1) * 0x8000_0000
    ensures Power16(x) == x16
  {
    SquareIs(x, x2);
    SquareIs(x2, x4);
    SquareIs(x4, x8);
    SquareIs(x8, x16);
  }

  lemma SquareIs(x: nat, s: nat)
    requires s * ONE <= x * x < (s + 1) * ONE
    ensures Square(x) == s
  {
    DivUnique(x * x, ONE, s, x * x - s * ONE);
  }

  lemma SmallPowers()
    ensures Pow2(0) == 1 && Pow2(1) == 2 && Pow2(2) == 4 && Pow2(3) == 8 && Pow2(4) == 16
    ensures Pow2(5) == 32 && Pow2(6) == 64 && Pow2(7) == 128 && Pow2(8) == 256 && Pow2(9) == 512
    ensures Pow2(10) == 1024 && Pow2(11) == 2048 && Pow2(12) == 4096 && Pow2(13) == 8192
    ensures Pow2(14) == 16384 && Pow2(15) == 32768 && Pow2(16) == 65536
  {
    assert Pow2(8) == 256 && Pow2(12) == 16 * Pow2(8) && Pow2(16) == 16 * Pow2(12);
  }

  /** A weight with its square, fourth, eighth and sixteenth power. */
  lemma RootIs(k: nat, p: nat, x: nat, x2: nat, x4: nat, x8: nat, x16: nat)
    requires Pow2(k) == p && 2047 * 0x8000_0000 <= 2048 * (x16 * p) <= 2049 * 0x8000_0000
    requires x2 * 0x8000_0000 <= x * x < (x2 + 1) * 0x8000_0000
    requires x4 * 0x8000_0000 <= x2 * x2 < (x4 + 1) * 0x8000_0000
    requires x8 * 0x8000_0000 <= x4 * x4 < (x8 + 1) * 0x8000_0000
    requires x16 * 0x8000_0000 <= x8 * x8 < (x16 + 1) * 0x8000_0000
    ensures NearRoot(x, k)
  {
    hide Pow2;
    PowerIs(x, x2, x4, x8, x16);
  }

  lemma AnchorRoots(k: nat)
    requires k <= 16
    ensures NearRoot(ANCHORS[k], k)
  {
    hide NearRoot;
    hide Pow2;
    SmallPowers();
    RootIs(0, 1, 2147483647, 2147483646, 2147483644, 2147483640, 2147483632);
    RootIs(1, 2, 2056437386, 1969251186, 1805811297, 1518500242, 1073741812);
    RootIs(2, 4, 1969251187, 1805811299, 1518500245, 1073741816, 536870904);
    RootIs(3, 8, 1885761398, 1655936264, 1276901415, 759250122, 268435453);
    RootIs(4, 16, 1805811303, 1518500252, 1073741826, 536870914, 134217729);
    RootIs(5, 32, 1729250835, 1392470882, 902905667, 379625076, 67108868);
    RootIs(6, 64, 1655936297, 1276901466, 759250183, 268435497, 33554442);
    RootIs(7, 128, 1585730096, 1170923904, 638450863, 189812623, 16777232);
    RootIs(8, 256, 1518500494, 1073742169, 536871257, 134217900, 8388629);
    RootIs(9, 512, 1454121377, 984626346, 451453514, 94906555, 4194329);
    RootIs(10, 1024, 1392472026, 902907151, 379626324, 67109310, 2097179);
    RootIs(11, 2048, 1333436915, 827970917, 319227501, 47453771, 1048604);
    RootIs(12, 4096, 1276905520, 759255004, 268438905, 33555294, 524314);
    RootIs(13, 8192, 1222772134, 696243574, 225731690, 23727675, 262168);
    RootIs(14, 16384, 1170935711, 638463738, 189820278, 16778585, 131093);
    RootIs(15, 32768, 1121299703, 585482001, 159623647, 11864913, 65554);
    RootIs(16, 65536, 1073741824, 536870912, 134217728, 8388608, 32768);
  }

  lemma StageIs(s: nat, k: nat, below: nat, value: int)
    requires 0 < s < 7 && Stage(s - 1, k) == below
    requires 16 * (MAGNITUDES[s] - value) <= below * k < 16 * (MAGNITUDES[s] - value) + 16
    ensures Stage(s, k) == value
  {
  }

  /** The six stages at k sixteenths. */
  lemma StagesAre(k: nat, x1: nat, x2: nat, x3: nat, x4: nat, x5: nat, x6: nat)
    requires 16 * (2863360 - x1) <= 330788 * k < 16 * (2863360 - x1) + 16
    requires 16 * (20654775 - x2) <= x1 * k < 16 * (20654775 - x2) + 16
    requires 16 * (119194166 - x3) <= x2 * k < 16 * (119194166 - x3) + 16
    requires 16 * (515882496 - x4) <= x3 * k < 16 * (515882496 - x4) + 16
    requires 16 * (1488522236 - x5) <= x4 * k < 16 * (1488522236 - x5) + 16
    requires 16 * (2147483647 - x6) <= x5 * k < 16 * (2147483647 - x6) + 16
    ensures Stage(6, k) == x6
  {
    assert Stage(0, k) == 330788;
    hide Stage;
    StageIs(1, k, 330788, x1);
    StageIs(2, k, x1, x2);
    StageIs(3, k, x2, x3);
    StageIs(4, k, x3, x4);
    StageIs(5, k, x4, x5);
    StageIs(6, k, x5, x6);
  }

  lemma StageAnchors(k: nat)
    requires k < 16
    ensures Stage(6, k) == ANCHORS[k]
  {
    hide Stage;
    StagesAre(0, 2863360, 20654775, 119194166, 515882496, 1488522236, 2147483647);
    StagesAre(1, 2842686, 20477108, 117914347, 508512850, 1456740183, 2056437386);
    StagesAre(2, 2822012, 20302024, 116656413, 501300445, 1425859681, 1969251187);
    StagesAre(3, 2801338, 20129525, 115419881, 494241269, 1395851999, 1885761398);
    StagesAre(4, 2780663, 19959610, 114204264, 487331430, 1366689379, 1805811303);
    StagesAre(5, 2759989, 19792279, 113009079, 480567159, 1338344999, 1729250835);
    StagesAre(6, 2739315, 19627532, 111833842, 473944806, 1310792934, 1655936297);
    StagesAre(7, 2718641, 19465370, 110678067, 467460842, 1284008118, 1585730096);
    StagesAre(8, 2697966, 19305792, 109541270, 461111861, 1257966306, 1518500494);
    StagesAre(9, 2677292, 19148799, 108422967, 454894578, 1232644036, 1454121377);
    StagesAre(10, 2656618, 18994389, 107322673, 448805826, 1208018595, 1392472026);
    StagesAre(11, 2635944, 18842564, 106239904, 442842562, 1184067975, 1333436915);
    StagesAre(12, 2615269, 18693324, 105174173, 437001867, 1160770836, 1276905520);
    StagesAre(13, 2594595, 18546667, 104125000, 431280934, 1138106478, 1222772134);
    StagesAre(14, 2573921, 18402595, 103091896, 425677087, 1116054785, 1170935711);
    StagesAre(15, 2553247, 18261106, 102074380, 420187765, 1094596207, 1121299703);
  }

  lemma AnchorValue(k: nat)
    requires k <= 16
    ensures Falling(k * STEP) == ANCHORS[k]
  {
    hide Stage;
    hide Fall;
    Sixteenths(6, k);
    if k < 16 {
      StageAnchors(k);
    }
  }

  lemma SquareGrows(x: nat, y: nat)
    requires x <= y
    ensures Square(x) <= Square(y)
  {
    SquareMonotone(x, y);
    DivMonotone(x * x, y * y, ONE);
  }

  lemma PowerMonotone(x: nat, y: nat)
    requires x <= y
    ensures Power16(x) <= Power16(y)
  {
    hide Square;
    SquareGrows(x, y);
    SquareGrows(Square(x), Square(y));
    SquareGrows(Square(Square(x)), Square(Square(y)));
    SquareGrows(Square(Square(Square(x))), Square(Square(Square(y))));
  }

  /** The law of the weights. At every depth the weight lies between the sixteenth
      roots of the powers of two at the sixteenths above and below it. */
  lemma WeightIsNearExponential(e: nat, k: nat, weight: nat)
    requires k < 16 && k * STEP <= e <= (k + 1) * STEP && weight == Falling(e)
    ensures 2048 * (Power16(weight) * Pow2(k)) <= 2049 * ONE
    ensures 2047 * ONE <= 2048 * (Power16(weight) * Pow2(k + 1))
  {
    hide Fall;
    hide Power16;
    AnchorValue(k);
    AnchorValue(k + 1);
    AnchorRoots(k);
    AnchorRoots(k + 1);
    FallsOrStays(k * STEP, e);
    FallsOrStays(e, (k + 1) * STEP);
    PowerMonotone(weight, ANCHORS[k]);
    PowerMonotone(ANCHORS[k + 1], weight);
    MulMonotone(Power16(weight), Power16(ANCHORS[k]), Pow2(k));
    MulMonotone(Power16(ANCHORS[k + 1]), Power16(weight), Pow2(k + 1));
  }

  lemma FallsOrStays(e: nat, f: nat)
    requires e <= f <= UNIT
    ensures HALF <= Falling(f) <= Falling(e) <= MAX_32
  {
    hide Fall;
    FallAtEnds();
    if e < f {
      WeightFalls(e, f);
    } else if e > 0 {
      WeightFalls(0, e);
    }
  }

  // -------------------------------------------------------------------- the outputs

  /** A smaller depth weighs more, and only a smaller depth does. */
  lemma WeightOrderIff(x: i32, y: i32, maximum: i32)
    ensures Weight(y, maximum) <= Weight(x, maximum) <==> Depth(x, maximum) <= Depth(y, maximum)
  {
    hide Weight;
    hide Falling;
    hide Depth;
    WeightAtDepth(x, maximum);
    WeightAtDepth(y, maximum);
    if Depth(x, maximum) < Depth(y, maximum) {
      WeightFalls(Depth(x, maximum), Depth(y, maximum));
    } else if Depth(y, maximum) < Depth(x, maximum) {
      WeightFalls(Depth(y, maximum), Depth(x, maximum));
    }
  }

  lemma TheSoftmax(out: seq<i32>, row: seq<i32>, m: i32)
    requires IsRowSoftmax(out, row) && IsMaximum(row, m)
    ensures IsSoftmax(out, row, WeigherOf(m)) && Heavy(WeigherOf(m))
  {
    var n: i32 :| IsMaximum(row, n) && IsSoftmax(out, row, WeigherOf(n));
    MaximumUnique(row, m, n);
    WeightsAreHeavy(m);
  }

  lemma ShareGrows(v: int, w: int, d: int)
    requires 0 <= v <= w && d > 0
    ensures Normalized(v, d) <= Normalized(w, d)
  {
    DivMonotone(v * ONE, w * ONE, d);
  }

  /** Every output is its entry's share of the row's weights, rounded down. */
  lemma OutputIsShare(out: seq<i32>, row: seq<i32>, m: i32, i: nat)
    requires IsRowSoftmax(out, row) && IsMaximum(row, m) && i < |row| && |row| > 1
    ensures |out| == |row|
    ensures var d := Min(WeightSum(row, WeigherOf(m), |row|), U64_MAX);
            0 < d && out[i] * d <= Weight(row[i], m) * ONE < (out[i] + 1) * d
  {
    hide Weight;
    hide Share;
    var f := WeigherOf(m);
    TheSoftmax(out, row, m);
    WeightsAddUp(row, f, |row|);
    if WeightSum(row, f, |row|) <= U64_MAX {
      ShareBelowOne(row, f, i);
    } else {
      SaturatedShare(f(row[i]));
    }
    ShareRange(f(row[i]), Min(WeightSum(row, f, |row|), U64_MAX));
  }

  lemma ShareRange(weight: nat, d: nat)
    requires d > 0
    ensures Share(weight, d) * d <= weight * ONE < (Share(weight, d) + 1) * d
  {
    hide Share;
    ShareBounds(weight, d);
    assert (Share(weight, d) + 1) * d == Share(weight, d) * d + d;
  }

  predicate NearHalf(whole: int, half: int) {
    2 * half - 1 <= whole <= 2 * half + 1
  }

  /** Two outputs at these depths: the less deep is no smaller, two equally deep are the
      same, and one a unit deep is half of one at the top, to within one raw unit. */
  predicate Follows(a: i32, b: i32, depthA: nat, depthB: nat) {
    && (depthA <= depthB ==> b <= a)
    && (depthB <= depthA ==> a <= b)
    && (depthA == 0 && depthB == UNIT ==> NearHalf(a, b))
  }

  /** What SoftmaxApprox stores for any two entries of a row follows their depths. */
  lemma OutputsFollowDepth(out: seq<i32>, row: seq<i32>, m: i32, i: nat, j: nat)
    requires IsRowSoftmax(out, row) && IsMaximum(row, m) && i < |row| && j < |row|
    ensures |out| == |row|
    ensures Follows(out[i], out[j], Depth(row[i], m), Depth(row[j], m))
  {
    hide Weight;
    hide Depth;
    hide Falling;
    hide Normalized;
    var d := Min(WeightSum(row, WeigherOf(m), |row|), U64_MAX);
    TheSoftmax(out, row, m);
    WeightsAddUp(row, WeigherOf(m), |row|);
    WeightOrderIff(row[i], row[j], m);
    WeightOrderIff(row[j], row[i], m);
    if Depth(row[i], m) <= Depth(row[j], m) {
      ShareGrows(Weight(row[j], m), Weight(row[i], m), d);
    }
    if Depth(row[j], m) <= Depth(row[i], m) {
      ShareGrows(Weight(row[i], m), Weight(row[j], m), d);
    }
    if Depth(row[i], m) == 0 && Depth(row[j], m) == UNIT {
      HalfAsMuch(out, row, m, i, j);
    }
  }

  lemma HalfAsMuch(out: seq<i32>, row: seq<i32>, m: i32, i: nat, j: nat)
    requires IsRowSoftmax(out, row) && IsMaximum(row, m) && i < |row| == |out| && j < |row|
    requires Depth(row[i], m) == 0 && Depth(row[j], m) == UNIT
    ensures NearHalf(out[i], out[j])
  {
    hide Weight;
    hide Depth;
    hide Fall;
    FallAtEnds();
    WeightAtDepth(row[i], m);
    WeightAtDepth(row[j], m);
    var d := Min(WeightSum(row, WeigherOf(m), |row|), U64_MAX);
    TwoWeights(row, WeigherOf(m), i, j);
    OutputIsShare(out, row, m, i);
    OutputIsShare(out, row, m, j);
    HalfShare(out[i], out[j], d);
  }

  lemma {:induction false} WeightsOfTwo(row: seq<i32>, f: Weigher, i: nat, j: nat, k: nat)
    requires Heavy(f) && i < j < |row| && k <= |row|
    ensures WeightSum(row, f, k) >= (if i < k then f(row[i]) else 0) + if j < k then f(row[j]) else 0
  {
    if k > 0 {
      WeightsOfTwo(row, f, i, j, k - 1);
    }
  }

  lemma TwoWeights(row: seq<i32>, f: Weigher, i: nat, j: nat)
    requires Heavy(f) && i < |row| && j < |row| && i != j
    ensures WeightSum(row, f, |row|) >= f(row[i]) + f(row[j])
  {
    if i < j {
      WeightsOfTwo(row, f, i, j, |row|);
    } else {
      WeightsOfTwo(row, f, j, i, |row|);
    }
  }

  lemma HalfShare(whole: int, half: int, d: int)
    requires d >= 3 * HALF - 1
    requires whole * d <= MAX_32 * ONE < (whole + 1) * d && half * d <= HALF * ONE < (half + 1) * d
    ensures NearHalf(whole, half)
  {
    MulMonotone(whole + 2, 2 * half, d);
    assert (whole + 2) * d == (whole + 1) * d + d && 2 * half * d == 2 * (half * d);
    MulMonotone(2 * half + 2, whole, d);
    assert (2 * half + 2) * d == 2 * ((half + 1) * d);
  }

  lemma NarrowDepth(logit: i32, maximum: i32)
    requires 0 <= maximum - logit <= UNIT
    ensures Depth(logit, maximum) == maximum - logit
  {
    DivUnique(maximum - logit, 0x1000_0000, 0, maximum - logit);
  }

  /** While no logit is more than a unit below the maximum, a larger logit gets no less. */
  lemma NarrowRowKeepsOrder(out: seq<i32>, row: seq<i32>, m: i32, i: nat, j: nat)
    requires IsRowSoftmax(out, row) && IsMaximum(row, m) && i < |row| && j < |row|
    requires row[j] <= row[i] && m - row[j] <= UNIT
    ensures |out| == |row| && out[j] <= out[i]
  {
    hide Depth;
    hide IsRowSoftmax;
    NarrowDepth(row[i], m);
    NarrowDepth(row[j], m);
    OutputsFollowDepth(out, row, m, i, j);
  }

  lemma WideWeights()
    ensures Weight(0, 0) == Weight(-1 - UNIT, 0) == MAX_32 && Weight(-1, 0) == 2147483636
  {
    hide Weight;
    hide Fall;
    WeightAtDepth(0, 0);
    WeightAtDepth(-1, 0);
    WeightAtDepth(-1 - UNIT, 0);
    FallAtEnds();
    FallAtOne();
    NarrowDepth(0, 0);
    NarrowDepth(-1, 0);
    DivUnique(UNIT + 1, 0x1000_0000, 0, UNIT + 1);
  }

  lemma FallAtOne()
    ensures Fall(6, 16) == 2147483636
  {
  }

  lemma SumOfThree(row: seq<i32>, f: Weigher)
    requires |row| == 3
    ensures WeightSum(row, f, 3) == f(row[0]) + f(row[1]) + f(row[2])
  {
    assert WeightSum(row, f, 0) == 0 && WeightSum(row, f, 1) == f(row[0]);
    assert WeightSum(row, f, 2) == f(row[0]) + f(row[1]);
  }

  lemma LessShare(a: int, b: int)
    requires a * 6442450930 <= 2147483636 * ONE && MAX_32 * ONE < (b + 1) * 6442450930
    ensures a < b
  {
  }

  lemma WideTotal(row: seq<i32>)
    requires row == [0, -1, -1 - UNIT]
    ensures IsMaximum(row, 0) && WeightSum(row, WeigherOf(0), |row|) == 6442450930
  {
    hide Weight;
    hide WeightSum;
    WideWeights();
    SumOfThree(row, WeigherOf(0));
    assert row[0] == 0;
  }

  /** Farther down it need not: the third logit is lower than the second and gets more. */
  lemma WideRowMisorders(out: seq<i32>, row: seq<i32>)
    requires row == [0, -1, -1 - UNIT] && IsRowSoftmax(out, row)
    ensures |out| == 3 && out[1] < out[2]
  {
    hide Weight;
    hide IsRowSoftmax;
    hide IsMaximum;
    hide WeightSum;
    hide WeigherOf;
    WideTotal(row);
    WideWeights();
    OutputIsShare(out, row, 0, 1);
    OutputIsShare(out, row, 0, 2);
    LessShare(out[1], out[2]);
  }
}
