/** The maximum of a row and where it is first attained, found four lanes at a time
    (math32/include/math32/prob/max.hpp, math32/include/math32/soa/tail.hpp). */
module RowMax {
  import opened Words

  const MIN_32: int := -0x8000_0000
  const MAX_32: int := 0x7FFF_FFFF

  type i32 = x: int | MIN_32 <= x <= MAX_32

  datatype Lanes = Lanes(best: seq<i32>, index: seq<u32>)

  /** Four consecutive values, or the padding past the end of the row. */
  function LoadLanes(row: seq<i32>, at: nat, pad: i32): (r: seq<i32>)
    ensures |r| == 4
  {
    seq(4, k requires 0 <= k < 4 => if at + k < |row| then row[at + k] else pad)
  }

  function Narrow32(n: nat): u32 {
    n % TWO_32
  }

  /** A lane keeps its value unless the candidate is strictly larger. */
  function TakeLarger(lanes: Lanes, candidate: seq<i32>, at: nat): (r: Lanes)
    requires |lanes.best| == |lanes.index| == |candidate| == 4
    ensures |r.best| == |r.index| == 4
  {
    Lanes(seq(4, k requires 0 <= k < 4 => if candidate[k] > lanes.best[k] then candidate[k] else lanes.best[k]),
          seq(4, k requires 0 <= k < 4 => if candidate[k] > lanes.best[k] then Narrow32(at + k) else lanes.index[k]))
  }

  /** `best` and `index` are the maximum, and where it is first attained, of the values
      of one lane before `upto`; a lane of nothing but the minimum keeps index 0. */
  ghost predicate LaneBest(row: seq<i32>, upto: nat, lane: nat, best: i32, index: u32)
    requires upto <= |row|
  {
    && (forall i :: 0 <= i < upto && i % 4 == lane ==> row[i] <= best)
    && (best == MIN_32 || exists i :: 0 <= i < upto && row[i] == best)
    && (|row| < TWO_32 ==>
          if best == MIN_32 then index == 0
          else index < upto && row[index] == best && forall i :: 0 <= i < index && i % 4 == lane ==> row[i] < best)
  }

  ghost predicate AllLanesBest(row: seq<i32>, upto: nat, lanes: Lanes)
    requires upto <= |row|
  {
    && |lanes.best| == |lanes.index| == 4
    && forall k :: 0 <= k < 4 ==> LaneBest(row, upto, k, lanes.best[k], lanes.index[k])
  }

  lemma OneOfBlock(at: nat, i: nat, k: nat)
    requires at % 4 == 0 && at <= i < at + 4 && i % 4 == k
    ensures i == at + k
  {
  }

  lemma TakeKeepsLane(row: seq<i32>, at: nat, lanes: Lanes, upto: nat, k: nat)
    requires at % 4 == 0 && at <= |row| && k < 4 && upto == Min(at + 4, |row|)
    requires |lanes.best| == |lanes.index| == 4 && LaneBest(row, at, k, lanes.best[k], lanes.index[k])
    ensures var next := TakeLarger(lanes, LoadLanes(row, at, MIN_32), at);
            LaneBest(row, upto, k, next.best[k], next.index[k])
  {
    var candidate := LoadLanes(row, at, MIN_32)[k];
    var next := TakeLarger(lanes, LoadLanes(row, at, MIN_32), at);
    forall i | 0 <= i < upto && i % 4 == k
      ensures row[i] <= next.best[k]
    {
      if i >= at {
        OneOfBlock(at, i, k);
      }
    }
    if candidate > lanes.best[k] {
      assert at + k < upto && row[at + k] == candidate;
      if |row| < TWO_32 {
        assert next.index[k] == at + k;
        forall i | 0 <= i < at + k && i % 4 == k
          ensures row[i] < candidate
        {
          if i >= at {
            OneOfBlock(at, i, k);
          }
        }
      }
    } else if lanes.best[k] != MIN_32 {
      var i :| 0 <= i < at && row[i] == lanes.best[k];
    }
  }

  lemma TakeKeepsLanes(row: seq<i32>, at: nat, lanes: Lanes)
    requires at % 4 == 0 && at <= |row| && AllLanesBest(row, at, lanes)
    ensures AllLanesBest(row, Min(at + 4, |row|), TakeLarger(lanes, LoadLanes(row, at, MIN_32), at))
  {
    forall k | 0 <= k < 4
      ensures var next := TakeLarger(lanes, LoadLanes(row, at, MIN_32), at);
              LaneBest(row, Min(at + 4, |row|), k, next.best[k], next.index[k])
    {
      TakeKeepsLane(row, at, lanes, Min(at + 4, |row|), k);
    }
  }

  datatype MaxResult = EmptyInput | RowMaximum(value: i32, index: u32, processed: u32)

  /** The pair stands for the largest lanes before k, the smallest index among them. */
  ghost predicate Reduced(lanes: Lanes, k: nat, best: i32, index: u32)
    requires |lanes.best| == |lanes.index| == 4 && k <= 4
  {
    && (exists j :: 0 <= j < k && lanes.best[j] == best && lanes.index[j] == index)
    && (forall j :: 0 <= j < k ==> lanes.best[j] <= best && (lanes.best[j] == best ==> index <= lanes.index[j]))
  }

  method ReduceLanes(lanes: Lanes) returns (best: i32, index: u32)
    requires |lanes.best| == |lanes.index| == 4
    ensures Reduced(lanes, 4, best, index)
  {
    best, index := lanes.best[0], lanes.index[0];
    for lane := 1 to 4
      invariant Reduced(lanes, lane, best, index)
    {
      if lanes.best[lane] > best || (lanes.best[lane] == best && lanes.index[lane] < index) {
        best, index := lanes.best[lane], lanes.index[lane];
      }
    }
  }

  ghost predicate IsFirstMaximum(row: seq<i32>, value: i32, index: u32) {
    index < |row| && row[index] == value && forall i :: 0 <= i < index ==> row[i] < value
  }

  lemma LanesGiveMaximum(row: seq<i32>, lanes: Lanes, best: i32, index: u32)
    requires row != [] && AllLanesBest(row, |row|, lanes) && Reduced(lanes, 4, best, index)
    ensures (forall i :: 0 <= i < |row| ==> row[i] <= best) && best in row
    ensures |row| < TWO_32 ==> IsFirstMaximum(row, best, index)
  {
    var j :| 0 <= j < 4 && lanes.best[j] == best && lanes.index[j] == index;
    assert LaneBest(row, |row|, j, best, index);
    forall i | 0 <= i < |row|
      ensures row[i] <= best
      ensures |row| < TWO_32 && i < index ==> row[i] < best
    {
      var k := i % 4;
      assert LaneBest(row, |row|, k, lanes.best[k], lanes.index[k]);
    }
    assert best == MIN_32 ==> row[0] == best;
  }

  lemma NarrowAdds(n: nat, more: nat)
    ensures Narrow32(Narrow32(n) + more) == Narrow32(n + more)
  {
    ModEqual(n + more, n % TWO_32 + more, n / TWO_32, TWO_32);
  }

  /** One block, the padded tail included. */
  method TakeBlock(row: seq<i32>, current: nat, lanes: Lanes, processed: u32) returns (next: Lanes, count: u32)
    requires current % 4 == 0 && current <= |row| && AllLanesBest(row, current, lanes) && processed == Narrow32(current)
    ensures AllLanesBest(row, Min(current + 4, |row|), next) && count == Narrow32(Min(current + 4, |row|))
  {
    hide LaneBest;
    hide TakeLarger;
    hide Narrow32;
    TakeKeepsLanes(row, current, lanes);
    NarrowAdds(current, Min(current + 4, |row|) - current);
    next := TakeLarger(lanes, LoadLanes(row, current, MIN_32), current);
    count := Narrow32(processed + (Min(current + 4, |row|) - current));
  }

  method TakeRow(row: seq<i32>) returns (lanes: Lanes, processed: u32)
    ensures AllLanesBest(row, |row|, lanes) && processed == Narrow32(|row|)
  {
    lanes, processed := Lanes([MIN_32, MIN_32, MIN_32, MIN_32], [0, 0, 0, 0]), 0;
    var current := 0;
    while current + 4 <= |row|
      invariant current % 4 == 0 && current <= |row| && processed == Narrow32(current)
      invariant AllLanesBest(row, current, lanes)
    {
      lanes, processed := TakeBlock(row, current, lanes, processed);
      current := current + 4;
    }
    if current < |row| {
      lanes, processed := TakeBlock(row, current, lanes, processed);
    }
  }

  /** The maximum of a row of any length; for rows shorter than 2^32, whose indices fit
      the lanes, also the first place that attains it. */
  method MaxOf(row: seq<i32>) returns (r: MaxResult)
    ensures r.EmptyInput? <==> row == []
    ensures r.RowMaximum? ==>
              && (forall i :: 0 <= i < |row| ==> row[i] <= r.value) && r.value in row
              && (|row| < TWO_32 ==> IsFirstMaximum(row, r.value, r.index))
              && r.processed == Narrow32(|row|)
  {
    if row == [] {
      return EmptyInput;
    }
    var lanes, processed := TakeRow(row);
    var best, index := ReduceLanes(lanes);
    LanesGiveMaximum(row, lanes, best, index);
    r := RowMaximum(best, index, processed);
  }
}
