/** What a fold comes to, said of its row and not of the combining step
    (kernel/src/reduction/fold/spec/combine.cpp, kernel/src/reduction/primitives.hpp). */
module FoldMeaning {
  import opened Words
  import opened FoldGraph

  // ---------------------------------------------------------- the four plain folds

  function Sum(values: seq<u64>): nat {
    if values == [] then 0 else Sum(values[..|values| - 1]) + values[|values| - 1]
  }

  /** Bit k of a number. */
  function Bit(n: nat, k: nat): nat {
    Shr(n, k) % 2
  }

  /** How many of the values have bit k set. */
  function Ones(values: seq<u64>, k: nat): nat {
    if values == [] then 0 else Ones(values[..|values| - 1], k) + Bit(values[|values| - 1], k)
  }

  /** The row's parity in every bit, its largest or smallest value, or its sum up to the
      largest word. */
  ghost predicate IsFoldOf(op: Operation, values: seq<u64>, r: u64)
    requires op != HashFold
  {
    match op
    case XorFold => forall k: nat :: Bit(r, k) == Ones(values, k) % 2
    case MaxFold => r in values && forall v :: v in values ==> v <= r
    case MinFold => r in values && forall v :: v in values ==> r <= v
    case SaturatingAddFold => r == if Sum(values) <= U64_MAX then Sum(values) else U64_MAX
  }

  lemma XorBit(a: nat, b: nat, k: nat)
    ensures Bit(Xor(a, b), k) == (Bit(a, k) + Bit(b, k)) % 2
  {
    XorShr(a, b, k);
    XorHalf(Shr(a, k), Shr(b, k));
  }

  lemma {:induction false} FoldOne(op: Operation, v: u64)
    requires op != HashFold
    ensures IsFoldOf(op, [v], v)
  {
    assert [v][..0] == [];
    forall k: nat | true
      ensures Ones([v], k) == Bit(v, k)
    {
    }
  }

  /** Combining the fold of a row with one more value gives the fold of the longer row. */
  lemma FoldOneMore(op: Operation, values: seq<u64>, r: u64, v: u64)
    requires op != HashFold && values != [] && IsFoldOf(op, values, r)
    ensures IsFoldOf(op, values + [v], Combine(op, r, v))
  {
    var longer := values + [v];
    assert longer[..|values|] == values;
    match op
    case XorFold =>
      forall k: nat | true
        ensures Bit(Combine(op, r, v), k) == Ones(longer, k) % 2
      {
        XorBit(r, v, k);
      }
    case MaxFold =>
      assert v == longer[|values|];
    case MinFold =>
      assert v == longer[|values|];
    case SaturatingAddFold =>
  }

  lemma {:induction false} LeftFoldMeans(op: Operation, values: seq<u64>)
    requires op != HashFold && values != []
    ensures IsFoldOf(op, values, LeftFold(CombinerOf(op), values))
    decreases |values|
  {
    hide IsFoldOf;
    var last := |values| - 1;
    if last == 0 {
      FoldOne(op, values[0]);
      assert values == [values[0]];
    } else {
      LeftFoldMeans(op, values[..last]);
      FoldOneMore(op, values[..last], LeftFold(CombinerOf(op), values[..last]), values[last]);
      assert values[..last] + [values[last]] == values;
    }
  }

  /** A row has one fold. */
  lemma FoldUnique(op: Operation, values: seq<u64>, r: u64, s: u64)
    requires op != HashFold && IsFoldOf(op, values, r) && IsFoldOf(op, values, s)
    ensures r == s
  {
    if op == XorFold {
      BitsTell(r, s);
    }
  }

  lemma {:induction false} BitsTell(a: nat, b: nat)
    requires forall k: nat :: Bit(a, k) == Bit(b, k)
    ensures a == b
    decreases a + b
  {
    if a != 0 || b != 0 {
      assert Bit(a, 0) == Bit(b, 0);
      forall k: nat | true
        ensures Bit(a / 2, k) == Bit(b / 2, k)
      {
        assert Bit(a, k + 1) == Bit(b, k + 1);
      }
      BitsTell(a / 2, b / 2);
    }
  }

  // ------------------------------------------------------------------ levels of pairs

  lemma {:induction false} PairsAt(f: Combiner, pad: u64, values: seq<u64>, m: nat, k: nat)
    requires k < m <= Up(|values|)
    ensures Pairs(f, pad, values, m)[k] == PairAt(f, pad, values, k)
  {
    if k < m - 1 {
      PairsAt(f, pad, values, m - 1, k);
    }
  }

  /** Changing one value changes one pair. */
  lemma PairsChange(f: Combiner, pad: u64, values: seq<u64>, i: nat, x: u64)
    requires i < |values|
    ensures i / 2 < Up(|values|)
    ensures Pairs(f, pad, values[i := x], Up(|values|))
         == Pairs(f, pad, values, Up(|values|))[i / 2 := PairAt(f, pad, values[i := x], i / 2)]
  {
    var changed, m := values[i := x], Up(|values|);
    forall k | 0 <= k < m
      ensures Pairs(f, pad, changed, m)[k] == PairAt(f, pad, changed, k)
      ensures k != i / 2 ==> Pairs(f, pad, changed, m)[k] == Pairs(f, pad, values, m)[k]
    {
      PairsAt(f, pad, changed, m, k);
      PairsAt(f, pad, values, m, k);
    }
  }

  lemma PaddedPairs(f: Combiner, pad: u64, values: seq<u64>)
    requires |values| > 1 && |values| % 2 == 1
    ensures TreeFold(f, pad, values) == TreeFold(f, pad, values + [pad])
  {
    hide PairAt;
    hide TreeFold;
    hide Pairs;
    var longer, m := values + [pad], Up(|values|);
    FoldStep(f, pad, values, m);
    FoldStep(f, pad, longer, m);
    forall k | 0 <= k < m
      ensures Pairs(f, pad, values, m)[k] == Pairs(f, pad, longer, m)[k]
    {
      PairsAt(f, pad, values, m, k);
      PairsAt(f, pad, longer, m, k);
      SamePair(f, pad, values, k);
    }
    assert Pairs(f, pad, values, m) == Pairs(f, pad, longer, m);
  }

  lemma SamePair(f: Combiner, pad: u64, values: seq<u64>, k: nat)
    requires 2 * k < |values|
    ensures PairAt(f, pad, values, k) == PairAt(f, pad, values + [pad], k)
  {
  }

  /** An odd row folds like the row with its padding written out. */
  lemma OddRowIsPadded(op: Operation, values: seq<u64>)
    requires |values| > 1 && |values| % 2 == 1
    ensures var pad := if op == HashFold then 0xA11CE5 else if op == MinFold then U64_MAX else 0;
            TreeFold(CombinerOf(op), Padding(op), values) == TreeFold(CombinerOf(op), Padding(op), values + [pad])
  {
    PaddedPairs(CombinerOf(op), Padding(op), values);
  }

  // ---------------------------------------------------------------- what a hash shows

  /** The right operand that takes a left one to a given hash. */
  function UnHash(left: u64, hash: u64): u64 {
    UnMix(MixHash(0xC6A4_A793_5BD1_E995, left), hash)
  }

  function UnMix(seed: u64, hash: u64): u64 {
    (Xor(seed, hash) - Stir(seed)) % TWO_64
  }

  function Stir(seed: u64): nat {
    0x9E37_79B9_7F4A_7C15 + seed * 64 % TWO_64 + seed / 4
  }

  lemma WordBack(x: u64, t: int)
    ensures ((x + t) % TWO_64 - t) % TWO_64 == x
  {
    ModEqual((x + t) % TWO_64 - t, x, 0 - (x + t) / TWO_64, TWO_64);
    DivUnique(x, TWO_64, 0, x);
  }

  lemma XorBack(seed: u64, x: u64)
    ensures Xor(seed, x) < TWO_64 && Xor(seed, Xor(seed, x)) == x
  {
    XorWord(seed, x);
    XorCommutes(seed, x);
    XorCommutes(seed, Xor(seed, x));
    XorCancels(x, seed);
  }

  lemma MixIs(seed: u64, x: u64)
    ensures MixHash(seed, x) == Xor(seed, (x + Stir(seed)) % TWO_64)
  {
  }

  lemma MixUndone(seed: u64, x: u64)
    ensures UnMix(seed, MixHash(seed, x)) == x && MixHash(seed, UnMix(seed, x)) == x
  {
    hide Xor;
    hide MixHash;
    hide Stir;
    var t: int := Stir(seed);
    MixIs(seed, x);
    XorBack(seed, (x + t) % TWO_64);
    WordBack(x, t);
    MixIs(seed, UnMix(seed, x));
    XorBack(seed, x);
    WordBack(Xor(seed, x), -t);
  }

  /** The right operand of a hash can be told from the hash and the left operand. */
  lemma HashUndone(left: u64, x: u64)
    ensures UnHash(left, CombineHashes(left, x)) == x && CombineHashes(left, UnHash(left, x)) == x
  {
    MixUndone(MixHash(0xC6A4_A793_5BD1_E995, left), x);
  }

  /** This right operand makes the word that is xored with the seed small. */
  const TWIN: u64 := 0x61C8_8646_80B5_843B

  lemma SmallXors()
    ensures Xor(63, 4127) == 4128 == Xor(64, 4192)
  {
    hide Xor;
    XorZero(32);
    XorHalf(1, 65);
    XorHalf(2, 131);
    XorHalf(4, 262);
    XorHalf(8, 524);
    XorHalf(16, 1048);
    XorHalf(32, 2096);
    XorHalf(64, 4192);
    XorZero(64);
    XorHalf(1, 128);
    XorHalf(3, 257);
    XorHalf(7, 515);
    XorHalf(15, 1031);
    XorHalf(31, 2063);
    XorHalf(63, 4127);
  }

  /** The left operand cannot: with this right one, two seeds give one hash. */
  lemma SeedsCollide()
    ensures MixHash(63, TWIN) == MixHash(64, TWIN)
  {
    hide Xor;
    SmallXors();
    DivUnique(TWIN + 0x9E37_79B9_7F4A_7C15 + 63 * 64 + 63 / 4, TWO_64, 1, 4127);
    DivUnique(TWIN + 0x9E37_79B9_7F4A_7C15 + 64 * 64 + 64 / 4, TWO_64, 1, 4192);
  }

  /** Changing value i to x changes the hash of the row. */
  ghost predicate Shows(values: seq<u64>, i: nat, x: u64)
    requires i < |values|
  {
    TreeFold(CombinerOf(HashFold), ODD_PADDING, values[i := x]) != TreeFold(CombinerOf(HashFold), ODD_PADDING, values)
  }

  /** One level up the change is that of a pair. */
  lemma ShowsAbove(values: seq<u64>, i: nat, x: u64)
    requires i < |values| && |values| > 1
    ensures var f := CombinerOf(HashFold);
            var above := Pairs(f, ODD_PADDING, values, Up(|values|));
            && i / 2 < |above| && above[i / 2] == PairAt(f, ODD_PADDING, values, i / 2)
            && (Shows(values, i, x) <==> Shows(above, i / 2, PairAt(f, ODD_PADDING, values[i := x], i / 2)))
  {
    hide PairAt;
    hide Pairs;
    var f, m := CombinerOf(HashFold), Up(|values|);
    FoldStep(f, ODD_PADDING, values, m);
    FoldStep(f, ODD_PADDING, values[i := x], m);
    PairsChange(f, ODD_PADDING, values, i, x);
    PairsAt(f, ODD_PADDING, values, m, i / 2);
  }

  lemma HashInjectiveRight(left: u64, x: u64, y: u64)
    requires CombineHashes(left, x) == CombineHashes(left, y)
    ensures x == y
  {
    HashUndone(left, x);
    HashUndone(left, y);
  }

  /** In a complete row a change of the last value goes up on the right all the way. */
  lemma {:induction false} LastAlwaysShows(levels: nat, values: seq<u64>, x: u64)
    requires |values| == Pow2(levels) && x != values[|values| - 1]
    ensures Shows(values, |values| - 1, x)
    decreases levels
  {
    hide CombineHashes;
    var f, last := CombinerOf(HashFold), |values| - 1;
    if levels > 0 {
      ShowsAbove(values, last, x);
      var above := Pairs(f, ODD_PADDING, values, Up(|values|));
      var changed := PairAt(f, ODD_PADDING, values[last := x], last / 2);
      if changed == above[last / 2] {
        HashInjectiveRight(values[last - 1], x, values[last]);
      }
      LastAlwaysShows(levels - 1, above, changed);
    }
  }

  /** A row whose pairs are these: zeros on the left. */
  function Below(above: seq<u64>): (r: seq<u64>)
    ensures |r| == 2 * |above|
  {
    if above == [] then []
    else Below(above[..|above| - 1]) + [0, UnHash(0, above[|above| - 1])]
  }

  lemma {:induction false} BelowAt(above: seq<u64>, k: nat)
    requires k < |above|
    ensures Below(above)[2 * k] == 0 && Below(above)[2 * k + 1] == UnHash(0, above[k])
    decreases |above|
  {
    hide UnHash;
    if k < |above| - 1 {
      BelowAt(above[..|above| - 1], k);
    }
  }

  lemma PairBelow(above: seq<u64>, k: nat)
    requires k < |above|
    ensures PairAt(CombinerOf(HashFold), ODD_PADDING, Below(above), k) == above[k]
  {
    hide CombineHashes;
    hide UnHash;
    hide Below;
    BelowAt(above, k);
    HashUndone(0, above[k]);
  }

  lemma PairsBelow(above: seq<u64>)
    ensures Up(|Below(above)|) == |above|
    ensures Pairs(CombinerOf(HashFold), ODD_PADDING, Below(above), |above|) == above
  {
    hide Below;
    hide PairAt;
    hide Pairs;
    forall k | 0 <= k < |above|
      ensures Pairs(CombinerOf(HashFold), ODD_PADDING, Below(above), |above|)[k] == above[k]
    {
      PairsAt(CombinerOf(HashFold), ODD_PADDING, Below(above), |above|, k);
      PairBelow(above, k);
    }
  }

  /** Anywhere else in a complete row some change of some row is hidden. */
  lemma {:induction false} OthersCanHide(levels: nat, i: nat) returns (values: seq<u64>, x: u64)
    requires i < Pow2(levels) - 1
    ensures |values| == Pow2(levels) && x != values[i] && !Shows(values, i, x)
    decreases levels
  {
    hide CombineHashes;
    if i % 2 == 0 {
      values, x := HiddenLeft(Pow2(levels), i);
    } else {
      var above, y := OthersCanHide(levels - 1, i / 2);
      values, x := Below(above), UnHash(0, y);
      HiddenRight(above, i, y);
    }
  }

  lemma HiddenRight(above: seq<u64>, i: nat, y: u64)
    requires i % 2 == 1 && i / 2 < |above| && y != above[i / 2] && !Shows(above, i / 2, y)
    ensures UnHash(0, y) != Below(above)[i] && !Shows(Below(above), i, UnHash(0, y))
  {
    hide CombineHashes;
    hide UnHash;
    hide Below;
    hide Shows;
    PairsBelow(above);
    BelowAt(above, i / 2);
    ShowsAbove(Below(above), i, UnHash(0, y));
    HashUndone(0, y);
    HashUndone(0, above[i / 2]);
  }

  lemma HiddenLeft(n: nat, i: nat) returns (values: seq<u64>, x: u64)
    requires i + 1 < n && i % 2 == 0
    ensures |values| == n && x != values[i] && !Shows(values, i, x)
  {
    hide MixHash;
    hide UnMix;
    var k: u64 := 0xC6A4_A793_5BD1_E995;
    values, x := seq(n, _ => TWIN)[i := UnMix(k, 63)], UnMix(k, 64);
    MixUndone(k, 63);
    MixUndone(k, 64);
    SeedsCollide();
    ShowsAbove(values, i, x);
    var above := Pairs(CombinerOf(HashFold), ODD_PADDING, values, Up(n));
    assert above[i / 2 := above[i / 2]] == above;
  }

  /** The hash of a row of 2^levels values shows every change of the value at i if and
      only if i is the last one. */
  lemma HashShowsIff(levels: nat, i: nat)
    requires i < Pow2(levels)
    ensures (forall values: seq<u64>, x: u64 :: |values| == Pow2(levels) && x != values[i] ==> Shows(values, i, x))
       <==> i == Pow2(levels) - 1
  {
    hide Shows;
    if i == Pow2(levels) - 1 {
      forall values: seq<u64>, x: u64 | |values| == Pow2(levels) && x != values[i]
        ensures Shows(values, i, x)
      {
        LastAlwaysShows(levels, values, x);
      }
    } else {
      var values, x := OthersCanHide(levels, i);
    }
  }

  ghost predicate Complete(n: nat) {
    exists levels: nat :: n == Pow2(levels)
  }

  /** What a fold says of its row. */
  ghost predicate Means(op: Operation, values: seq<u64>, r: u64)
    requires values != []
  {
    if op != HashFold then IsFoldOf(op, values, r)
    else
      && r == TreeFold(CombinerOf(op), ODD_PADDING, values)
      && (Complete(|values|) ==> forall i, x: u64 :: 0 <= i == |values| - 1 && x != values[i] ==> Shows(values, i, x))
  }

  lemma TreeFoldMeans(op: Operation, values: seq<u64>)
    requires values != []
    ensures Means(op, values, TreeFold(CombinerOf(op), Padding(op), values))
  {
    hide IsFoldOf;
    hide TreeFold;
    hide LeftFold;
    hide Shows;
    if op != HashFold {
      TreeFoldIsLeftFold(op, values);
      LeftFoldMeans(op, values);
    } else if levels: nat :| |values| == Pow2(levels) {
      forall i, x: u64 | 0 <= i == |values| - 1 && x != values[i]
        ensures Shows(values, i, x)
      {
        LastAlwaysShows(levels, values, x);
      }
    }
  }
}
