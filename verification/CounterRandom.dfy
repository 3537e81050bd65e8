/** Counter-based random words: the splitmix64 finaliser, rejection sampling
    below a bound, ranges and byte streams (node/src/host/random.cpp). */
module CounterRandom {
  import opened Words

  const STREAM_SALT: u64 := 0x9E3779B97F4A7C15
  const DRAW_SALT: u64 := 0xD1B54A32D192ED03
  const GAMMA: u64 := 0x9E3779B97F4A7C15
  const MIX_1: u64 := 0xBF58476D1CE4E5B9
  const MIX_2: u64 := 0x94D049BB133111EB

  // The inverses of the odd multipliers modulo 2^64.
  const STREAM_SALT_INVERSE: u64 := 0xF1DE83E19937733D
  const DRAW_SALT_INVERSE: u64 := 0x06106CCFA448E5AB
  const MIX_1_INVERSE: u64 := 0x96DE1B173F119089
  const MIX_2_INVERSE: u64 := 0x319642B2D24D8EC3

  datatype Stream = Stream(seed: u64, id: u64)

  function XorU64(a: u64, b: u64): u64 {
    XorWord(a, b);
    Xor(a, b)
  }

  function ShrU64(a: u64, shift: nat): u64 {
    ShrShrinks(a, shift);
    Shr(a, shift)
  }

  function XorShiftRight(x: u64, shift: nat): u64 {
    XorU64(x, ShrU64(x, shift))
  }

  function SplitMix64(value: u64): u64 {
    var a := WrapAdd(value, GAMMA);
    var b := WrapMul(XorShiftRight(a, 30), MIX_1);
    var c := WrapMul(XorShiftRight(b, 27), MIX_2);
    XorShiftRight(c, 31)
  }

  function U64(stream: Stream, draw: u64): u64 {
    SplitMix64(XorU64(XorU64(stream.seed, WrapMul(stream.id, STREAM_SALT)), WrapMul(draw, DRAW_SALT)))
  }

  // ------------------------------------------------------------ the bijection

  function UnXorShiftRight(z: u64, shift: nat): u64 {
    XorU64(XorU64(z, ShrU64(z, shift)), ShrU64(z, shift + shift))
  }

  function UnSplitMix64(z: u64): u64 {
    var c := UnXorShiftRight(z, 31);
    var b := UnXorShiftRight(WrapMul(c, MIX_2_INVERSE), 27);
    var a := UnXorShiftRight(WrapMul(b, MIX_1_INVERSE), 30);
    WrapSub(a, GAMMA)
  }

  /** The one draw of a stream that yields a given word. */
  function DrawOf(stream: Stream, value: u64): u64 {
    WrapMul(XorU64(UnSplitMix64(value), XorU64(stream.seed, WrapMul(stream.id, STREAM_SALT))), DRAW_SALT_INVERSE)
  }

  lemma ThirdShiftVanishes(x: u64, shift: nat)
    requires 3 * shift >= 64
    ensures Shr(x, shift + shift + shift) == 0
  {
    Pow2Values();
    Pow2Monotone(64, 3 * shift);
    ShrVanishes(x, 3 * shift);
  }

  // x ^ p ^ q ^ (p ^ q) == x, in the association the two lemmas below need.
  lemma XorTelescopes(x: nat, p: nat, q: nat)
    ensures Xor(Xor(Xor(x, p), q), Xor(p, q)) == x
    ensures Xor(Xor(Xor(x, p), Xor(p, q)), q) == x
  {
    XorAssociates(x, p, q);
    XorCancels(x, Xor(p, q));
    XorAssociates(x, p, Xor(p, q));
    XorAssociates(p, p, q);
    XorSelf(p);
    XorZero(q);
    XorCancels(x, q);
  }

  lemma XorShiftInverse(x: u64, shift: nat)
    requires 3 * shift >= 64
    ensures UnXorShiftRight(XorShiftRight(x, shift), shift) == x
    ensures XorShiftRight(UnXorShiftRight(x, shift), shift) == x
  {
    var p, q := Shr(x, shift), Shr(x, shift + shift);
    ShrAdd(x, shift, shift);
    ShrAdd(x, shift + shift, shift);
    ShrAdd(x, shift, shift + shift);
    ThirdShiftVanishes(x, shift);
    XorZero(p);
    XorZero(q);
    XorZero(Xor(p, q));
    XorTelescopes(x, p, q);
    // (x ^ p) shifted once and twice
    XorShr(x, p, shift);
    XorShr(x, p, shift + shift);
    // (x ^ p ^ q) shifted once
    XorShr(Xor(x, p), q, shift);
  }

  lemma MultiplierInverts(x: u64, k: u64, inverse: u64)
    requires (k * inverse) % TWO_64 == 1
    ensures WrapMul(WrapMul(x, k), inverse) == x
    ensures WrapMul(WrapMul(x, inverse), k) == x
  {
    MulModInverse(x, k, inverse, TWO_64);
    MulModInverse(x, inverse, k, TWO_64);
  }

  lemma OddMultipliers()
    ensures (MIX_1 * MIX_1_INVERSE) % TWO_64 == 1
    ensures (MIX_2 * MIX_2_INVERSE) % TWO_64 == 1
    ensures (DRAW_SALT * DRAW_SALT_INVERSE) % TWO_64 == 1
    ensures (STREAM_SALT * STREAM_SALT_INVERSE) % TWO_64 == 1
  {
  }

  lemma GammaCancels(x: u64)
    ensures WrapSub(WrapAdd(x, GAMMA), GAMMA) == x
    ensures WrapAdd(WrapSub(x, GAMMA), GAMMA) == x
  {
  }

  lemma SplitMixLeftInverse(x: u64)
    ensures UnSplitMix64(SplitMix64(x)) == x
  {
    var a := WrapAdd(x, GAMMA);
    var b := WrapMul(XorShiftRight(a, 30), MIX_1);
    var c := WrapMul(XorShiftRight(b, 27), MIX_2);
    OddMultipliers();
    XorShiftInverse(c, 31);
    MultiplierInverts(XorShiftRight(b, 27), MIX_2, MIX_2_INVERSE);
    XorShiftInverse(b, 27);
    MultiplierInverts(XorShiftRight(a, 30), MIX_1, MIX_1_INVERSE);
    XorShiftInverse(a, 30);
    GammaCancels(x);
  }

  lemma SplitMixRightInverse(z: u64)
    ensures SplitMix64(UnSplitMix64(z)) == z
  {
    var c := UnXorShiftRight(z, 31);
    var b := UnXorShiftRight(WrapMul(c, MIX_2_INVERSE), 27);
    var a := UnXorShiftRight(WrapMul(b, MIX_1_INVERSE), 30);
    OddMultipliers();
    GammaCancels(a);
    XorShiftInverse(WrapMul(b, MIX_1_INVERSE), 30);
    MultiplierInverts(b, MIX_1, MIX_1_INVERSE);
    XorShiftInverse(WrapMul(c, MIX_2_INVERSE), 27);
    MultiplierInverts(c, MIX_2, MIX_2_INVERSE);
    XorShiftInverse(z, 31);
  }

  /** Within one stream every 64-bit word comes from exactly one draw. */
  lemma DrawBijective(stream: Stream, word: u64)
    ensures DrawOf(stream, U64(stream, word)) == word
    ensures U64(stream, DrawOf(stream, word)) == word
  {
    var base := XorU64(stream.seed, WrapMul(stream.id, STREAM_SALT));
    var salted := WrapMul(word, DRAW_SALT);
    OddMultipliers();
    SplitMixLeftInverse(XorU64(base, salted));
    XorCommutes(base, salted);
    XorCancels(salted, base);
    MultiplierInverts(word, DRAW_SALT, DRAW_SALT_INVERSE);

    var raw := UnSplitMix64(word);
    MultiplierInverts(XorU64(raw, base), DRAW_SALT, DRAW_SALT_INVERSE);
    XorCommutes(base, XorU64(raw, base));
    XorCancels(raw, base);
    SplitMixRightInverse(word);
  }

  /** The one stream of a seed that yields a given word at a given draw. */
  function IdOf(seed: u64, draw: u64, value: u64): u64 {
    WrapMul(XorU64(XorU64(UnSplitMix64(value), WrapMul(draw, DRAW_SALT)), seed), STREAM_SALT_INVERSE)
  }

  /** Under one seed, and at one draw, every 64-bit word comes from exactly one stream:
      streams that differ in their id alone never agree at any draw. */
  lemma IdBijective(seed: u64, id: u64, draw: u64)
    ensures IdOf(seed, draw, U64(Stream(seed, id), draw)) == id
    ensures U64(Stream(seed, IdOf(seed, draw, id)), draw) == id
  {
    var salted, drawn := WrapMul(id, STREAM_SALT), WrapMul(draw, DRAW_SALT);
    OddMultipliers();
    SplitMixLeftInverse(XorU64(XorU64(seed, salted), drawn));
    XorCancels(XorU64(seed, salted), drawn);
    XorCommutes(seed, salted);
    XorCancels(salted, seed);
    MultiplierInverts(id, STREAM_SALT, STREAM_SALT_INVERSE);

    var raw := XorU64(XorU64(UnSplitMix64(id), drawn), seed);
    MultiplierInverts(raw, STREAM_SALT, STREAM_SALT_INVERSE);
    XorCommutes(seed, raw);
    XorCancels(XorU64(UnSplitMix64(id), drawn), seed);
    XorCancels(UnSplitMix64(id), drawn);
    SplitMixRightInverse(id);
  }

  /** So two streams of a seed never agree, nor do two seeds under one id. */
  lemma StreamsDiffer(a: Stream, b: Stream, draw: u64)
    requires a != b && (a.seed == b.seed || a.id == b.id)
    ensures U64(a, draw) != U64(b, draw)
  {
    if a.seed == b.seed {
      IdBijective(a.seed, a.id, draw);
      IdBijective(b.seed, b.id, draw);
    } else {
      SeedTold(a, draw);
      SeedTold(b, draw);
    }
  }

  /** The seed can be told from a word, its stream's id and its draw. */
  lemma SeedTold(stream: Stream, draw: u64)
    ensures XorU64(XorU64(UnSplitMix64(U64(stream, draw)), WrapMul(draw, DRAW_SALT)), WrapMul(stream.id, STREAM_SALT))
         == stream.seed
  {
    var salted, drawn := WrapMul(stream.id, STREAM_SALT), WrapMul(draw, DRAW_SALT);
    SplitMixLeftInverse(XorU64(XorU64(stream.seed, salted), drawn));
    XorCancels(XorU64(stream.seed, salted), drawn);
    XorCancels(stream.seed, salted);
  }

  // ------------------------------------------------------------ counting tools

  lemma {:induction false} InjectionSize<A, B>(s: set<A>, t: set<B>, f: A -> B)
    requires forall a :: a in s ==> f(a) in t
    requires forall a, b :: a in s && b in s && f(a) == f(b) ==> a == b
    ensures |s| <= |t|
    decreases s
  {
    if s != {} {
      var a :| a in s;
      InjectionSize(s - {a}, t - {f(a)}, f);
    }
  }

  // ---------------------------------------------------------------- rejection

  /** The rejection threshold as the source writes it: (0 - n) mod n. */
  function Threshold(n: u64): u64
    requires n > 0
  {
    WrapSub(0, n) % n
  }

  lemma ThresholdIsResidue(n: u64)
    requires n > 0
    ensures Threshold(n) == TWO_64 % n
  {
    DivUnique(0 - n, TWO_64, -1, TWO_64 - n);
    ModEqual(TWO_64, TWO_64 - n, 1, n);
  }

  function DrawAt(draw: u64, tries: nat): u64 {
    (draw + tries) % TWO_64
  }

  predicate Accepted(stream: Stream, draw: u64, n: u64, tries: nat)
    requires n > 0
  {
    U64(stream, DrawAt(draw, tries)) >= Threshold(n)
  }

  lemma DrawsDistinct(stream: Stream, draw: u64, i: nat, j: nat)
    requires i < j < TWO_64
    ensures U64(stream, DrawAt(draw, i)) != U64(stream, DrawAt(draw, j))
  {
    DrawBijective(stream, DrawAt(draw, i));
    DrawBijective(stream, DrawAt(draw, j));
    DrawIndicesDistinct(draw, i, j);
  }

  lemma DrawIndicesDistinct(draw: u64, i: nat, j: nat)
    requires i < j < TWO_64
    ensures DrawAt(draw, i) != DrawAt(draw, j)
  {
  }

  /** Rejected draws are distinct words below the threshold, so there are no
      more of them in a row than the threshold. */
  lemma RejectionsBounded(stream: Stream, draw: u64, n: u64, tries: nat)
    requires n > 0
    requires forall j :: 0 <= j < tries ==> !Accepted(stream, draw, n, j)
    ensures tries <= Threshold(n)
  {
    if tries > Threshold(n) {
      var few := Threshold(n) + 1;
      var word := (j: int) => if j < 0 then 0 else U64(stream, DrawAt(draw, j));
      forall i, j | i in NatsBelow(few) && j in NatsBelow(few) && word(i) == word(j)
        ensures i == j
      {
        if i < j {
          DrawsDistinct(stream, draw, i, j);
        } else if j < i {
          DrawsDistinct(stream, draw, j, i);
        }
      }
      forall j | j in NatsBelow(few)
        ensures word(j) in NatsBelow(Threshold(n))
      {
        assert !Accepted(stream, draw, n, j);
      }
      InjectionSize(NatsBelow(few), NatsBelow(Threshold(n)), word);
    }
  }

  /** How many draws `below` discards before the one it uses. */
  ghost function Discarded(stream: Stream, draw: u64, n: u64, from: nat): (tries: nat)
    requires n > 0
    requires forall j :: 0 <= j < from ==> !Accepted(stream, draw, n, j)
    ensures tries <= TWO_64 % n
    ensures Accepted(stream, draw, n, tries)
    ensures forall j :: 0 <= j < tries ==> !Accepted(stream, draw, n, j)
    decreases TWO_64 - from
  {
    RejectionsBounded(stream, draw, n, from);
    ThresholdIsResidue(n);
    if Accepted(stream, draw, n, from) then from else Discarded(stream, draw, n, from + 1)
  }

  lemma {:induction false} DiscardedUnique(stream: Stream, draw: u64, n: u64, from: nat, tries: nat)
    requires n > 0 && from <= tries
    requires forall j :: 0 <= j < tries ==> !Accepted(stream, draw, n, j)
    requires Accepted(stream, draw, n, tries)
    ensures Discarded(stream, draw, n, from) == tries
    decreases tries - from
  {
    if from < tries {
      DiscardedUnique(stream, draw, n, from + 1, tries);
    }
  }

  /** What `below` returns from a draw: the first accepted word modulo n. */
  ghost function Outcome(stream: Stream, draw: u64, n: u64): u64
    requires n > 0
  {
    U64(stream, DrawAt(draw, Discarded(stream, draw, n, 0))) % n
  }

  /** The loop stops within (2^64 mod n) + 1 draws and returns the first
      accepted word modulo n. */
  method Below(stream: Stream, draw: u64, n: u64) returns (r: u64)
    ensures n == 0 ==> r == 0
    ensures n > 0 ==> r < n && r == Outcome(stream, draw, n)
  {
    if n == 0 {
      return 0;
    }
    var threshold := WrapSub(0, n) % n;
    var index := draw;
    ghost var tries := 0;
    while true
      invariant index == DrawAt(draw, tries)
      invariant forall j :: 0 <= j < tries ==> !Accepted(stream, draw, n, j)
      decreases TWO_64 - tries
    {
      var value := U64(stream, index);
      if value >= threshold {
        assert Accepted(stream, draw, n, tries);
        DiscardedUnique(stream, draw, n, 0, tries);
        return value % n;
      }
      assert !Accepted(stream, draw, n, tries);
      RejectionsBounded(stream, draw, n, tries + 1);
      index := WrapAdd(index, 1);
      tries := tries + 1;
      DrawStep(draw, tries - 1);
    }
  }

  lemma DrawStep(draw: u64, tries: nat)
    ensures WrapAdd(DrawAt(draw, tries), 1) == DrawAt(draw, tries + 1)
  {
    var q := (draw + tries) / TWO_64;
    ModEqual(draw + tries + 1, DrawAt(draw, tries) + 1, q, TWO_64);
  }

  method Range(stream: Stream, draw: u64, lower: u64, upper: u64) returns (r: u64)
    ensures upper <= lower ==> r == lower
    ensures lower < upper ==> lower <= r < upper
    ensures lower < upper ==>
              r == lower + Outcome(stream, draw, upper - lower)
  {
    if upper <= lower {
      return lower;
    }
    hide Outcome;
    var offset := Below(stream, draw, upper - lower);
    SumFits(lower, offset);
    r := WrapAdd(lower, offset);
  }

  lemma SumFits(a: u64, b: u64)
    requires a + b < TWO_64
    ensures WrapAdd(a, b) == a + b
  {
  }

  // ----------------------------------------------------------------- fairness

  /** The accepted words that reduce to r. */
  ghost function AcceptedWords(n: u64, r: nat): set<int>
    requires n > 0
  {
    set v: int | 0 <= v < TWO_64 && v >= Threshold(n) && v % n == r
  }

  /** The draws of a stream whose word is accepted at once and reduces to r. */
  ghost function FairDraws(stream: Stream, n: u64, r: nat): set<int>
    requires n > 0
  {
    set d: int | 0 <= d < TWO_64 && U64(stream, d) >= Threshold(n) && U64(stream, d) % n == r
  }

  /** The k-th accepted word with residue r. */
  function AcceptedWord(t: nat, n: nat, r: nat, k: int): int
    requires n > 0
  {
    t + (r - t) % n + k * n
  }

  lemma AcceptedWordFits(t: nat, n: nat, r: nat, q: nat, k: nat)
    requires n > 0 && r < n && k < q
    ensures t <= AcceptedWord(t, n, r, k) < q * n + t
    ensures AcceptedWord(t, n, r, k) % n == r
  {
    MulMonotone(0, k, n);
    MulMonotone(k, q - 1, n);
    DivUnique(r, n, 0, r);
    ModEqual(AcceptedWord(t, n, r, k), r, k - (r - t) / n, n);
  }

  lemma AcceptedWordInjective(t: nat, n: nat, r: nat, j: nat, k: nat)
    requires n > 0 && AcceptedWord(t, n, r, j) == AcceptedWord(t, n, r, k)
    ensures j == k
  {
    MulMonotone(j + 1, k, n);
    MulMonotone(k + 1, j, n);
  }

  lemma AcceptedWordIsAccepted(n: u64, r: nat, k: nat)
    requires r < n && k < TWO_64 / n
    ensures AcceptedWord(Threshold(n), n, r, k) in AcceptedWords(n, r)
  {
    ThresholdIsResidue(n);
    AcceptedWordFits(Threshold(n), n, r, TWO_64 / n, k);
  }

  lemma AcceptedWordsAtLeast(n: u64, r: nat)
    requires 0 <= r < n
    ensures TWO_64 / n <= |AcceptedWords(n, r)|
  {
    hide AcceptedWord;
    var t, q := Threshold(n), TWO_64 / n;
    var word := (k: int) => AcceptedWord(t, n, r, k);
    forall k | k in NatsBelow(q)
      ensures word(k) in AcceptedWords(n, r)
    {
      AcceptedWordIsAccepted(n, r, k);
    }
    forall j, k | j in NatsBelow(q) && k in NatsBelow(q) && word(j) == word(k)
      ensures j == k
    {
      AcceptedWordInjective(t, n, r, j, k);
    }
    InjectionSize(NatsBelow(q), AcceptedWords(n, r), word);
  }

  function Rank(t: nat, n: nat, v: int): int
    requires n > 0
  {
    (v - t) / n
  }

  lemma RankFits(t: nat, n: nat, q: nat, v: nat)
    requires n > 0 && t <= v < q * n + t
    ensures 0 <= Rank(t, n, v) < q
  {
    MulMonotone(q, (v - t) / n, n);
  }

  lemma RankInjective(t: nat, n: nat, v: nat, w: nat)
    requires n > 0 && v % n == w % n && Rank(t, n, v) == Rank(t, n, w)
    ensures v == w
  {
    var d := v / n - w / n;
    assert v - w == d * n by {
      assert v == v / n * n + v % n;
      assert w == w / n * n + w % n;
    }
    assert v - w < n && w - v < n;
    MulMonotone(1, d, n);
    MulMonotone(d, -1, n);
  }

  lemma AcceptedWordsAtMost(n: u64, r: nat)
    requires 0 <= r < n
    ensures |AcceptedWords(n, r)| <= TWO_64 / n
  {
    ThresholdIsResidue(n);
    var t, q := Threshold(n), TWO_64 / n;
    var rank := (v: int) => Rank(t, n, v);
    forall v | v in AcceptedWords(n, r)
      ensures rank(v) in NatsBelow(q)
    {
      RankFits(t, n, q, v);
    }
    forall v, w | v in AcceptedWords(n, r) && w in AcceptedWords(n, r) && rank(v) == rank(w)
      ensures v == w
    {
      RankInjective(t, n, v, w);
    }
    InjectionSize(AcceptedWords(n, r), NatsBelow(q), rank);
  }

  /** Of the draws whose own word is accepted, equally many reduce to each residue. */
  lemma AcceptedDrawsAreFair(stream: Stream, n: u64, r: nat)
    requires 0 <= r < n
    ensures |FairDraws(stream, n, r)| == TWO_64 / n
  {
    var word := (d: int) => if 0 <= d < TWO_64 then U64(stream, d) else 0;
    var draw := (v: int) => if 0 <= v < TWO_64 then DrawOf(stream, v) else 0;
    forall x: u64 | true
      ensures draw(word(x)) == x && word(draw(x)) == x
    {
      DrawBijective(stream, x);
    }
    InjectionSize(FairDraws(stream, n, r), AcceptedWords(n, r), word);
    InjectionSize(AcceptedWords(n, r), FairDraws(stream, n, r), draw);
    AcceptedWordsAtLeast(n, r);
    AcceptedWordsAtMost(n, r);
  }

  /** The draws from which `below` returns r, by way of rejected ones or not. */
  ghost function DrawsOf(stream: Stream, n: u64, r: nat): set<int>
    requires n > 0
  {
    set d: int | 0 <= d < TWO_64 && Outcome(stream, d, n) == r
  }

  ghost function RejectedDraws(stream: Stream, n: u64): set<int>
    requires n > 0
  {
    set d: int | 0 <= d < TWO_64 && U64(stream, d) < Threshold(n)
  }

  lemma FirstDraw(draw: u64)
    ensures DrawAt(draw, 0) == draw
  {
  }

  lemma AcceptedOutcome(stream: Stream, d: u64, n: u64)
    requires n > 0 && U64(stream, d) >= Threshold(n)
    ensures Outcome(stream, d, n) == U64(stream, d) % n
  {
    FirstDraw(d);
    DiscardedUnique(stream, d, n, 0, 0);
  }

  lemma RejectedDrawsFew(stream: Stream, n: u64)
    requires n > 0
    ensures |RejectedDraws(stream, n)| <= TWO_64 % n
  {
    ThresholdIsResidue(n);
    var word := (d: int) => if 0 <= d < TWO_64 then U64(stream, d) else 0;
    forall d, e | d in RejectedDraws(stream, n) && e in RejectedDraws(stream, n) && word(d) == word(e)
      ensures d == e
    {
      DrawBijective(stream, d);
      DrawBijective(stream, e);
    }
    InjectionSize(RejectedDraws(stream, n), NatsBelow(Threshold(n)), word);
  }

  /** Over all 2^64 draws each residue is returned equally often, but for the 2^64 mod n
      draws that are rejected and take the value of a later one. */
  lemma BelowIsFair(stream: Stream, n: u64, r: nat)
    requires r < n
    ensures TWO_64 / n <= |DrawsOf(stream, n, r)| <= TWO_64 / n + TWO_64 % n
  {
    hide U64;
    hide Outcome;
    var fair, rejected, all := FairDraws(stream, n, r), RejectedDraws(stream, n), DrawsOf(stream, n, r);
    AcceptedDrawsAreFair(stream, n, r);
    RejectedDrawsFew(stream, n);
    forall d: u64 | U64(stream, d) >= Threshold(n)
      ensures Outcome(stream, d, n) == U64(stream, d) % n
    {
      AcceptedOutcome(stream, d, n);
    }
    SubsetSize(fair, all);
    SubsetSize(all, fair + rejected);
  }

  // --------------------------------------------------------- exactly uniform or not

  /** Each residue is returned from exactly c draws. */
  ghost predicate Uniform(stream: Stream, n: u64, c: nat)
    requires n > 0
  {
    forall r: nat :: r < n ==> |DrawsOf(stream, n, r)| == c
  }

  /** The draws from which `below` returns less than k. */
  ghost function DrawsUnder(stream: Stream, n: u64, k: nat): set<int>
    requires n > 0
  {
    set d: int | 0 <= d < TWO_64 && Outcome(stream, d, n) < k
  }

  lemma {:induction false} UniformUnder(stream: Stream, n: u64, c: nat, k: nat)
    requires n > 0 && Uniform(stream, n, c) && k <= n
    ensures |DrawsUnder(stream, n, k)| == k * c
  {
    hide Outcome;
    if k == 0 {
      assert DrawsUnder(stream, n, 0) == {};
    } else {
      UniformUnder(stream, n, c, k - 1);
      assert DrawsUnder(stream, n, k) == DrawsUnder(stream, n, k - 1) + DrawsOf(stream, n, k - 1);
      assert DrawsUnder(stream, n, k - 1) !! DrawsOf(stream, n, k - 1);
      assert k * c == (k - 1) * c + c;
    }
  }

  /** `below` is exactly uniform over the 2^64 draws if and only if n divides 2^64. */
  lemma BelowUniformIff(stream: Stream, n: u64)
    requires n > 0
    ensures (exists c: nat :: Uniform(stream, n, c)) <==> TWO_64 % n == 0
  {
    if c: nat :| Uniform(stream, n, c) {
      UniformUnder(stream, n, c, n);
      assert DrawsUnder(stream, n, n) == NatsBelow(TWO_64);
      DivUnique(TWO_64, n, c, 0);
    }
    if TWO_64 % n == 0 {
      forall r: nat | r < n
        ensures |DrawsOf(stream, n, r)| == TWO_64 / n
      {
        BelowIsFair(stream, n, r);
      }
      assert Uniform(stream, n, TWO_64 / n);
    }
  }

  // --------------------------------------------------------------- byte stream

  /** Byte `index` of a stream's little-endian byte sequence from a block. */
  function StreamByte(stream: Stream, firstBlock: u64, index: nat): nat {
    Shr(U64(stream, DrawAt(firstBlock, index / 8)), 8 * (index % 8)) % 256
  }

  lemma ByteOfBlock(stream: Stream, firstBlock: u64, block: nat, byte: nat)
    requires byte < 8
    ensures StreamByte(stream, firstBlock, 8 * block + byte)
         == Shr(U64(stream, DrawAt(firstBlock, block)), 8 * byte) % 256
  {
    DivUnique(8 * block + byte, 8, block, byte);
  }

  lemma NextByte(word: u64, byte: nat)
    ensures Shr(word, 8 * byte) / 256 == Shr(word, 8 * (byte + 1))
  {
    ShrAdd(word, 8 * byte, 8);
    ShrIsDivision(Shr(word, 8 * byte), 8);
    assert Pow2(8) == 256;
  }

  method FillBytes(stream: Stream, firstBlock: u64, out: array<int>)
    requires out.Length < TWO_64
    modifies out
    ensures forall k :: 0 <= k < out.Length ==> out[k] == StreamByte(stream, firstBlock, k)
  {
    var written, block := 0, 0;
    while written < out.Length
      invariant 0 <= written <= out.Length
      invariant written == 8 * block || written == out.Length
      invariant block <= written
      invariant forall k :: 0 <= k < written ==> out[k] == StreamByte(stream, firstBlock, k)
    {
      var value := U64(stream, WrapAdd(firstBlock, block));
      ghost var start := value;
      var byte := 0;
      while byte < 8 && written < out.Length
        invariant 0 <= byte <= 8 && written == 8 * block + byte <= out.Length
        invariant value == Shr(start, 8 * byte)
        invariant forall k :: 0 <= k < written ==> out[k] == StreamByte(stream, firstBlock, k)
      {
        ByteOfBlock(stream, firstBlock, block, byte);
        out[written] := value % 256;
        written := written + 1;
        NextByte(start, byte);
        value := value / 256;
        byte := byte + 1;
      }
      block := block + 1;
    }
  }

  /** Eight bytes of the stream from a block boundary on are that block's word, least
      significant byte first. */
  lemma BlockIsWord(stream: Stream, firstBlock: u64, block: nat, bytes: seq<nat>)
    requires |bytes| == 8 && forall i :: 0 <= i < 8 ==> bytes[i] == StreamByte(stream, firstBlock, 8 * block + i)
    ensures FromBytes(bytes) == U64(stream, DrawAt(firstBlock, block))
  {
    var word := U64(stream, DrawAt(firstBlock, block));
    forall i | 0 <= i < 8
      ensures bytes[i] == Shr(word, 8 * (0 + i)) % 256
    {
      ByteOfBlock(stream, firstBlock, block, i);
    }
    Pow2Values();
    ShrVanishes(word, 64);
    BytesMakeUp(word, 0, bytes);
  }
}
