/** The balanced contiguous partitioner (kernel/src/schedule/planner/balanced.cpp). */
module Balanced {
  import opened Words

  datatype Request = Request(packetCount: u32, executionWidth: u32)

  datatype Partition = Partition(workerIndex: u32, begin: u32, end: u32)

  datatype PartitionBuild =
    | Failed(reason: string)
    | Built(partitionCount: u32, packetsPerPartitionMax: u32, workerSlotCount: u32)

  predicate ValidPacketWorkUnits(works: seq<u64>, request: Request) {
    request.packetCount != 0 && request.executionWidth != 0 && |works| == request.packetCount
  }

  function ResolvePartitionCount(request: Request): (r: u32)
    requires request.packetCount != 0 && request.executionWidth != 0
    ensures 1 <= r <= request.packetCount && r <= request.executionWidth
    ensures r == request.packetCount || r == request.executionWidth
  {
    Max(1, Min(request.packetCount, Max(1, request.executionWidth)))
  }

  function NormalizeWorkUnits(work: u64): u64 {
    if work == 0 then 1 else work
  }

  /** The exact work of the packets from begin up to end. */
  function Load(works: seq<u64>, begin: nat, end: nat): nat
    requires begin <= end <= |works|
    decreases end
  {
    if begin == end then 0 else Load(works, begin, end - 1) + NormalizeWorkUnits(works[end - 1])
  }

  lemma {:induction false} LoadSplits(works: seq<u64>, begin: nat, middle: nat, end: nat)
    requires begin <= middle <= end <= |works|
    ensures Load(works, begin, end) == Load(works, begin, middle) + Load(works, middle, end)
    decreases end
  {
    if middle < end {
      LoadSplits(works, begin, middle, end - 1);
    }
  }

  /** The same work as the u64 accumulator sees it. */
  function SeenLoad(works: seq<u64>, begin: nat, end: nat): u64
    requires begin <= end <= |works|
  {
    Min(Load(works, begin, end), U64_MAX)
  }

  // ------------------------------------------------------- where the cuts fall

  function Target(remaining: u64, parts: u32): u64
    requires parts > 0
  {
    WrapAdd(remaining, parts - 1) / parts
  }

  /** First end, from `end` on, at which the part begun at `begin` is heavy enough. */
  function Take(works: seq<u64>, begin: nat, end: nat, maxEnd: nat, target: u64): (r: nat)
    requires begin <= end <= maxEnd <= |works|
    ensures end <= r <= maxEnd
    ensures end < maxEnd ==> end < r
    ensures end < r ==> Load(works, begin, r - 1) < target || r - 1 == end
    ensures r < maxEnd ==> target <= Load(works, begin, r)
    decreases maxEnd - end
  {
    if end == maxEnd then end
    else if SeenLoad(works, begin, end + 1) >= target then end + 1
    else Take(works, begin, end + 1, maxEnd, target)
  }

  /** The end of the first of `parts` partitions of the packets from begin on. */
  function NextEnd(works: seq<u64>, begin: nat, remaining: u64, parts: u32): (r: nat)
    requires 1 <= parts && begin + parts <= |works|
    ensures begin < r && r + (parts - 1) <= |works|
    ensures parts == 1 ==> r == |works|
  {
    if parts == 1 then |works| else Take(works, begin, begin, |works| - (parts - 1), Target(remaining, parts))
  }

  /** The ends of all of them. */
  function Ends(works: seq<u64>, begin: nat, remaining: u64, parts: u32): (r: seq<nat>)
    requires 1 <= parts && begin + parts <= |works|
    ensures |r| == parts
    decreases parts
  {
    var end := NextEnd(works, begin, remaining, parts);
    if parts == 1 then [end]
    else [end] + Ends(works, end, SatSub(remaining, SeenLoad(works, begin, end)), parts - 1)
  }

  function Cuts(works: seq<u64>, parts: u32): seq<nat>
    requires 1 <= parts <= |works|
  {
    Ends(works, 0, SeenLoad(works, 0, |works|), parts)
  }

  // ------------------------------------------------------------------ the method

  /** Non-empty contiguous partitions, one per worker, covering every packet. */
  ghost predicate Tiles(out: seq<Partition>, packetCount: u32, parts: u32) {
    && |out| == parts && parts > 0
    && out[0].begin == 0 && out[parts - 1].end == packetCount
    && (forall k :: 0 <= k < parts ==> out[k].workerIndex == k && out[k].begin < out[k].end)
    && (forall j, k :: 0 <= j < k < parts && k == j + 1 ==> out[j].end == out[k].begin)
  }

  ghost predicate IsWidest(out: seq<Partition>, widest: int) {
    && (forall k :: 0 <= k < |out| ==> out[k].end - out[k].begin <= widest)
    && (exists k :: 0 <= k < |out| && out[k].end - out[k].begin == widest)
  }

  function Widest(out: seq<Partition>): int {
    if out == [] then 0
    else
      var last := |out| - 1;
      Max(Widest(out[..last]), out[last].end - out[last].begin)
  }

  lemma {:induction false} WidestIsAttained(out: seq<Partition>)
    requires out != [] && forall k :: 0 <= k < |out| ==> out[k].begin < out[k].end
    ensures IsWidest(out, Widest(out))
  {
    var last := |out| - 1;
    assert out[last].end - out[last].begin <= Widest(out);
    if last > 0 && Widest(out) != out[last].end - out[last].begin {
      WidestIsAttained(out[..last]);
      var k :| 0 <= k < last && out[..last][k].end - out[..last][k].begin == Widest(out[..last]);
      assert out[k].end - out[k].begin == Widest(out);
    }
    forall k | 0 <= k < |out|
      ensures out[k].end - out[k].begin <= Widest(out)
    {
      if k < last {
        WidestIsAttained(out[..last]);
        assert out[k] == out[..last][k];
      }
    }
  }

  method SumWork(works: seq<u64>) returns (total: u64)
    ensures total == SeenLoad(works, 0, |works|)
  {
    total := 0;
    for i := 0 to |works|
      invariant total == SeenLoad(works, 0, i)
    {
      total := SatAdd(total, NormalizeWorkUnits(works[i]));
    }
  }

  /** One partition that is not the last. */
  method Fill(works: seq<u64>, begin: u32, maxEnd: u32, target: u64) returns (end: u32, work: u64)
    requires begin < maxEnd <= |works|
    ensures end == Take(works, begin, begin, maxEnd, target)
    ensures work == SeenLoad(works, begin, end)
  {
    end, work := begin, 0;
    while end < maxEnd
      invariant begin <= end <= maxEnd
      invariant work == SeenLoad(works, begin, end)
      invariant Take(works, begin, end, maxEnd, target) == Take(works, begin, begin, maxEnd, target)
    {
      work := SatAdd(work, NormalizeWorkUnits(works[end]));
      end := end + 1;
      if work >= target {
        break;
      }
    }
  }

  /** The partitions built so far, ending at `ends`; the next one begins at `begin`. */
  predicate TilesUpTo(out: seq<Partition>, begin: u32, ends: seq<nat>)
    decreases |out|
  {
    if out == [] then begin == 0 && ends == []
    else
      var last := |out| - 1;
      && |ends| == |out| && out[last].workerIndex == last
      && out[last].begin < out[last].end == begin == ends[last]
      && TilesUpTo(out[..last], out[last].begin, ends[..last])
  }

  lemma TilesExtend(out: seq<Partition>, part: Partition, ends: seq<nat>)
    requires TilesUpTo(out, part.begin, ends) && part.workerIndex == |out| && part.begin < part.end
    ensures TilesUpTo(out + [part], part.end, ends + [part.end as nat])
    ensures Widest(out + [part]) == Max(Widest(out), part.end - part.begin)
  {
    assert (out + [part])[..|out|] == out;
    assert (ends + [part.end as nat])[..|out|] == ends || |ends| != |out|;
  }

  lemma TilesAppend(before: seq<Partition>, part: Partition)
    requires 0 < |before| < TWO_32 - 1 && Tiles(before, part.begin, |before|)
    requires part.workerIndex == |before| && part.begin < part.end
    ensures Tiles(before + [part], part.end, |before| + 1)
  {
  }

  lemma {:induction false} TilesFromUpTo(out: seq<Partition>, end: u32, ends: seq<nat>)
    requires 0 < |out| < TWO_32 && TilesUpTo(out, end, ends)
    ensures Tiles(out, end, |out|) && |ends| == |out|
    ensures forall k :: 0 <= k < |out| ==> out[k].end == ends[k]
  {
    var last := |out| - 1;
    if last > 0 {
      var before := out[..last];
      TilesFromUpTo(before, out[last].begin, ends[..last]);
      TilesAppend(before, out[last]);
      assert out == before + [out[last]];
      assert forall k :: 0 <= k < last ==> out[k] == before[k] && ends[k] == ends[..last][k];
    }
  }

  /** What is left to cut: `left` partitions, ending at `rest`. */
  ghost predicate Ahead(works: seq<u64>, begin: nat, remaining: u64, left: u32, rest: seq<nat>) {
    if left == 0 then begin == |works| && rest == []
    else begin + left <= |works| && rest == Ends(works, begin, remaining, left)
  }

  method Append(out: seq<Partition>, widest: u32, part: Partition, ghost ends: seq<nat>)
    returns (more: seq<Partition>, most: u32)
    requires TilesUpTo(out, part.begin, ends) && part.workerIndex == |out| && part.begin < part.end
    requires widest == Widest(out)
    ensures |more| == |out| + 1 && TilesUpTo(more, part.end, ends + [part.end as nat]) && most == Widest(more)
  {
    TilesExtend(out, part, ends);
    more, most := out + [part], Max(widest, part.end - part.begin);
  }

  /** The state of the main loop: the partitions built, and the cuts to come. */
  ghost predicate Cutting(works: seq<u64>, cuts: seq<nat>, out: seq<Partition>, widest: u32,
                          begin: u32, remaining: u64, left: u32, done: seq<nat>, rest: seq<nat>) {
    && TilesUpTo(out, begin, done) && widest == Widest(out)
    && Ahead(works, begin, remaining, left, rest) && cuts == done + rest
  }

  /** One round of the main loop; `covers` is false when the partition would be empty or
      reach past the packets. */
  method CutOne(works: seq<u64>, out: seq<Partition>, widest: u32, begin: u32, remaining: u64, left: u32,
                ghost cuts: seq<nat>, ghost done: seq<nat>, ghost rest: seq<nat>)
    returns (covers: bool, end: u32, after: u64, more: seq<Partition>, most: u32,
             ghost ends: seq<nat>, ghost next: seq<nat>)
    requires |works| < TWO_32 && 1 <= left && |out| < TWO_32
    requires Cutting(works, cuts, out, widest, begin, remaining, left, done, rest)
    ensures covers && |more| == |out| + 1
    ensures Cutting(works, cuts, more, most, end, after, left - 1, ends, next)
  {
    end, after, next := CutNext(works, begin, remaining, left, rest);
    covers := begin < end && end <= |works|;
    ends := done + [end as nat];
    assert done + ([end as nat] + next) == ends + next;
    more, most := Append(out, widest, Partition(|out|, begin, end), done);
  }

  lemma CuttingDone(works: seq<u64>, cuts: seq<nat>, out: seq<Partition>, widest: u32,
                    begin: u32, remaining: u64, left: u32, done: seq<nat>, rest: seq<nat>)
    requires Cutting(works, cuts, out, widest, begin, remaining, left, done, rest) && left == 0
    ensures begin == |works| && TilesUpTo(out, begin, cuts) && widest == Widest(out)
  {
    assert done == cuts;
  }

  /** The main loop; `ok` is false when the partitions would not cover the packets. */
  method CutAll(works: seq<u64>, parts: u32, total: u64, ghost cuts: seq<nat>)
    returns (ok: bool, out: seq<Partition>, widest: u32)
    requires 1 <= parts <= |works| < TWO_32 && Ahead(works, 0, total, parts, cuts)
    ensures ok && |out| == parts && TilesUpTo(out, |works|, cuts) && widest == Widest(out)
  {
    ok, out, widest := true, [], 0;
    var begin: u32, left, remaining := 0, parts, total;
    ghost var done: seq<nat>, rest := [], cuts;
    while ok && left != 0
      invariant ok && |out| + left == parts
      invariant Cutting(works, cuts, out, widest, begin, remaining, left, done, rest)
      decreases left
    {
      ghost var ends, next;
      var end, after, more, most;
      ok, end, after, more, most, ends, next :=
        CutOne(works, out, widest, begin, remaining, left, cuts, done, rest);
      begin, remaining, left, out, widest, done, rest := end, after, left - 1, more, most, ends, next;
    }
    CuttingDone(works, cuts, out, widest, begin, remaining, left, done, rest);
    ok := ok && begin == |works|;
  }

  method BuildBalancedPartitions(works: seq<u64>, request: Request)
    returns (out: seq<Partition>, build: PartitionBuild)
    ensures build.Built? <==> ValidPacketWorkUnits(works, request)
    ensures build.Failed? ==> out == [] && build.reason == "invalid_packet_work_units"
    ensures build.Built? ==>
              var parts := ResolvePartitionCount(request);
              && Tiles(out, request.packetCount, parts)
              && (forall k :: 0 <= k < parts ==> out[k].end == Cuts(works, parts)[k])
              && IsWidest(out, build.packetsPerPartitionMax)
              && build.partitionCount == parts == build.workerSlotCount
  {
    out := [];
    if !ValidPacketWorkUnits(works, request) {
      return [], Failed("invalid_packet_work_units");
    }
    var parts := ResolvePartitionCount(request);
    var total := SumWork(works);
    var ok, widest;
    ok, out, widest := CutAll(works, parts, total, Cuts(works, parts));
    if !ok {
      return [], Failed("partition_coverage_mismatch");
    }
    TilesFromUpTo(out, request.packetCount, Cuts(works, parts));
    WidestIsAttained(out);
    build := Built(parts, widest, Min(Max(1, request.executionWidth), parts));
  }

  /** The end of the next partition, and the work left after it. */
  method CutNext(works: seq<u64>, begin: u32, remaining: u64, left: u32, ghost ends: seq<nat>)
    returns (end: u32, after: u64, ghost rest: seq<nat>)
    requires 1 <= left && |works| < TWO_32 && Ahead(works, begin, remaining, left, ends)
    ensures begin < end <= |works| && ends == [end as nat] + rest
    ensures Ahead(works, end, after, left - 1, rest)
  {
    end, after, rest := |works|, remaining, [];
    if left != 1 {
      var work;
      end, work := Fill(works, begin, |works| - (left - 1), Target(remaining, left));
      after := SatSub(remaining, work);
      rest := Ends(works, end, after, left - 1);
    }
  }

  // ------------------------------------------------------------------- balance

  /** No packet is heavier than m. */
  predicate PacketsWithin(works: seq<u64>, m: nat) {
    forall i :: 0 <= i < |works| ==> NormalizeWorkUnits(works[i]) <= m
  }

  /** Every partition, from the one begun at `begin`, carries at most `most`. */
  predicate AllWithin(works: seq<u64>, begin: nat, ends: seq<nat>, most: nat)
    decreases |ends|
  {
    ends == [] || (&& begin < ends[0] <= |works| && Load(works, begin, ends[0]) <= most
                   && AllWithin(works, ends[0], ends[1..], most))
  }

  lemma CeilDivBounds(a: nat, b: nat)
    requires b > 0
    ensures a <= CeilDiv(a, b) * b <= a + b - 1
  {
    var n := a + b - 1;
    assert n == n / b * b + n % b;
  }

  lemma CeilDivAtMost(a: nat, b: nat, q: nat)
    requires b > 0 && a <= q * b
    ensures CeilDiv(a, b) <= q
  {
    CeilDivBounds(a, b);
    MulMonotone(q + 1, CeilDiv(a, b), b);
  }

  /** Taking a fair share leaves fair shares for the rest. */
  lemma FairShareLeaves(remaining: nat, parts: nat, taken: nat, share: nat)
    requires parts > 1 && remaining <= share * parts && taken >= CeilDiv(remaining, parts)
    ensures remaining - taken <= share * (parts - 1)
  {
    var target := CeilDiv(remaining, parts);
    CeilDivBounds(remaining, parts);
    CeilDivAtMost(remaining, parts, share);
    MulMonotone(target, share, parts - 1);
    assert target * parts == target * (parts - 1) + target;
  }

  lemma ExactTarget(remaining: u64, parts: u32)
    requires parts > 0 && remaining + parts - 1 <= U64_MAX
    ensures Target(remaining, parts) == CeilDiv(remaining, parts)
  {
    DivUnique(remaining + parts - 1, TWO_64, 0, remaining + parts - 1);
  }

  /** The target is the fair share if and only if its sum fits a word; when it wraps, the
      target is zero and the next partition is a single packet. */
  lemma TargetIsFairShareIff(works: seq<u64>, begin: nat, remaining: u64, parts: u32)
    requires parts > 1 && begin + parts <= |works|
    ensures Target(remaining, parts) == CeilDiv(remaining, parts) <==> remaining + parts - 1 <= U64_MAX
    ensures remaining + parts - 1 > U64_MAX ==> NextEnd(works, begin, remaining, parts) == begin + 1
  {
    var sum := remaining + parts - 1;
    if sum <= U64_MAX {
      ExactTarget(remaining, parts);
    } else {
      DivUnique(sum, TWO_64, 1, sum - TWO_64);
      DivUnique(sum - TWO_64, parts, 0, sum - TWO_64);
      CeilDivBounds(remaining, parts);
      assert CeilDiv(remaining, parts) != 0;
    }
  }

  /** With as many partitions as packets, each partition is one packet. */
  lemma {:induction false} SingletonsFit(works: seq<u64>, begin: nat, remaining: u64, parts: u32, m: nat, most: nat)
    requires 1 <= parts && begin + parts == |works| && PacketsWithin(works, m) && m <= most
    ensures AllWithin(works, begin, Ends(works, begin, remaining, parts), most)
    decreases parts
  {
    assert NextEnd(works, begin, remaining, parts) == begin + 1;
    assert Load(works, begin, begin + 1) == Load(works, begin, begin) + NormalizeWorkUnits(works[begin]);
    if parts > 1 {
      SingletonsFit(works, begin + 1, SatSub(remaining, SeenLoad(works, begin, begin + 1)), parts - 1, m, most);
    }
  }

  /** A part that is not the last stays below its target plus one packet, and reaches
      the target unless only single packets remain. */
  lemma FirstPartFits(works: seq<u64>, begin: nat, parts: u32, remaining: u64, m: nat)
    requires 1 < parts && begin + parts <= |works| && PacketsWithin(works, m)
    requires remaining + parts - 1 <= U64_MAX
    ensures var target, end := CeilDiv(remaining, parts), NextEnd(works, begin, remaining, parts);
            && Load(works, begin, end) <= Max(target - 1, 0) + m
            && (end + (parts - 1) == |works| || target <= Load(works, begin, end))
  {
    var end := NextEnd(works, begin, remaining, parts);
    ExactTarget(remaining, parts);
    assert Load(works, begin, end) == Load(works, begin, end - 1) + NormalizeWorkUnits(works[end - 1]);
  }

  /** Work the u64 accumulator has not seen. */
  function Unseen(works: seq<u64>): nat {
    Load(works, 0, |works|) - SeenLoad(works, 0, |works|)
  }

  /** While each remaining part has a fair share of at most `share`, no part exceeds
      that share by a whole packet, and by the work `unseen` so far. */
  lemma {:induction false} PartsFit(works: seq<u64>, begin: nat, parts: u32, remaining: u64, share: nat, m: nat,
                                    unseen: nat)
    requires 1 <= parts && begin + parts <= |works| && PacketsWithin(works, m)
    requires Load(works, begin, |works|) <= remaining + unseen && remaining + parts - 1 <= U64_MAX
    requires 1 <= share && remaining <= share * parts
    ensures AllWithin(works, begin, Ends(works, begin, remaining, parts), share + m - 1 + unseen)
    decreases parts
  {
    assert 1 <= m by {
      assert NormalizeWorkUnits(works[begin]) <= m;
    }
    if parts > 1 {
      var end := NextEnd(works, begin, remaining, parts);
      FirstPartFits(works, begin, parts, remaining, m);
      CeilDivAtMost(remaining, parts, share);
      LoadSplits(works, begin, end, |works|);
      var rest := SatSub(remaining, SeenLoad(works, begin, end));
      if end + (parts - 1) == |works| {
        SingletonsFit(works, end, rest, parts - 1, m, share + m - 1 + unseen);
      } else {
        FairShareLeaves(remaining, parts, Load(works, begin, end), share);
        MulMonotone(0, share, parts - 1);
        PartsFit(works, end, parts - 1, rest, share, m, unseen);
      }
    }
  }

  lemma SharesGrow(share: nat, half: nat, parts: nat)
    requires half <= parts
    ensures share * half <= share * parts
  {
  }

  lemma AllWithinPrepend(works: seq<u64>, begin: nat, ends: seq<nat>, m: nat, most: nat)
    requires begin < |works| && PacketsWithin(works, m) && m <= most && AllWithin(works, begin + 1, ends, most)
    ensures AllWithin(works, begin, [begin + 1] + ends, most)
  {
    assert Load(works, begin, begin + 1) == Load(works, begin, begin) + NormalizeWorkUnits(works[begin]);
    assert ([begin + 1] + ends)[1..] == ends;
  }

  /** What a wrapped target leaves: one packet off the work, one part off the plan. */
  lemma WrappedPart(works: seq<u64>, begin: nat, remaining: u64, parts: u32, unseen: nat, m: nat, most: nat)
    requires 1 < parts && begin + parts <= |works| && remaining + parts - 1 > U64_MAX
    requires Load(works, begin, |works|) <= remaining + unseen && PacketsWithin(works, m) && m <= most
    ensures var rest := SatSub(remaining, SeenLoad(works, begin, begin + 1));
            && rest < remaining
            && Load(works, begin + 1, |works|) <= rest + unseen
            && (AllWithin(works, begin + 1, Ends(works, begin + 1, rest, parts - 1), most) ==>
                  AllWithin(works, begin, Ends(works, begin, remaining, parts), most))
  {
    TargetIsFairShareIff(works, begin, remaining, parts);
    LoadSplits(works, begin, begin + 1, |works|);
    assert Load(works, begin, begin + 1) == Load(works, begin, begin) + NormalizeWorkUnits(works[begin]);
    var later := Ends(works, begin + 1, SatSub(remaining, SeenLoad(works, begin, begin + 1)), parts - 1);
    assert Ends(works, begin, remaining, parts) == [begin + 1] + later;
    if AllWithin(works, begin + 1, later, most) {
      AllWithinPrepend(works, begin, later, m, most);
    }
  }

  /** At most every second part is lost to a wrapped target: each takes a packet and a
      part off a sum that exceeds a word by less than the number of parts. */
  lemma {:induction false} WrappedPartsFit(works: seq<u64>, begin: nat, parts: u32, remaining: u64, share: nat,
                                           half: nat, fair: nat, m: nat, unseen: nat)
    requires 1 <= half <= parts && begin + parts <= |works| && PacketsWithin(works, m)
    requires Load(works, begin, |works|) <= remaining + unseen
    requires remaining + parts - 1 - U64_MAX <= 2 * (parts - half)
    requires 1 <= share && remaining <= fair <= share * half
    ensures AllWithin(works, begin, Ends(works, begin, remaining, parts), share + m - 1 + unseen)
    decreases parts
  {
    if remaining + parts - 1 <= U64_MAX {
      SharesGrow(share, half, parts);
      PartsFit(works, begin, parts, remaining, share, m, unseen);
    } else {
      WrappedPart(works, begin, remaining, parts, unseen, m, share + m - 1 + unseen);
      var rest := SatSub(remaining, SeenLoad(works, begin, begin + 1));
      WrappedPartsFit(works, begin + 1, parts - 1, rest, share, half, fair, m, unseen);
    }
  }

  lemma {:induction false} LoadAtLeastCount(works: seq<u64>, begin: nat, end: nat)
    requires begin <= end <= |works|
    ensures end - begin <= Load(works, begin, end)
    decreases end
  {
    if begin < end {
      LoadAtLeastCount(works, begin, end - 1);
    }
  }

  lemma {:induction false} AllWithinAt(works: seq<u64>, begin: nat, ends: seq<nat>, most: nat, k: nat)
    requires k < |ends| && AllWithin(works, begin, ends, most)
    ensures var from := if k == 0 then begin else ends[k - 1];
            from < ends[k] <= |works| && Load(works, from, ends[k]) <= most
    decreases k
  {
    if k > 0 {
      AllWithinAt(works, ends[0], ends[1..], most, k - 1);
    }
  }

  lemma SharedBound(works: seq<u64>, out: seq<Partition>, parts: u32, m: nat, k: nat)
    requires 1 <= parts <= |works| < TWO_32 && k < parts && PacketsWithin(works, m)
    requires Tiles(out, |works|, parts) && forall j :: 0 <= j < parts ==> out[j].end == Cuts(works, parts)[j]
    requires Load(works, 0, |works|) + parts - 1 <= U64_MAX
    ensures out[k].begin <= out[k].end <= |works|
    ensures Load(works, out[k].begin, out[k].end) <= CeilDiv(Load(works, 0, |works|), parts) + m - 1
  {
    var total := Load(works, 0, |works|);
    var share := CeilDiv(total, parts);
    LoadAtLeastCount(works, 0, |works|);
    CeilDivBounds(total, parts);
    MulMonotone(share, 0, parts);
    PartsFit(works, 0, parts, total, share, m, 0);
    AllWithinAt(works, 0, Cuts(works, parts), share + m - 1, k);
  }

  /** Whatever the total: no partition carries more than the seen work shared among half
      as many workers, one packet, and the work the accumulator could not hold. */
  lemma BoundOnAnyTotal(works: seq<u64>, out: seq<Partition>, parts: u32, m: nat, k: nat)
    requires 1 <= parts <= |works| < TWO_32 && k < parts && PacketsWithin(works, m)
    requires Tiles(out, |works|, parts) && forall j :: 0 <= j < parts ==> out[j].end == Cuts(works, parts)[j]
    ensures out[k].begin <= out[k].end <= |works|
    ensures Load(works, out[k].begin, out[k].end)
         <= CeilDiv(SeenLoad(works, 0, |works|), (parts + 1) / 2) + m - 1 + Unseen(works)
  {
    var seen, half := SeenLoad(works, 0, |works|), (parts + 1) / 2;
    var share := CeilDiv(seen, half);
    LoadAtLeastCount(works, 0, |works|);
    CeilDivBounds(seen, half);
    MulMonotone(share, 0, half);
    WrappedPartsFit(works, 0, parts, seen, share, half, seen, m, Unseen(works));
    AllWithinAt(works, 0, Cuts(works, parts), share + m - 1 + Unseen(works), k);
  }

  /** While no target wraps, no partition carries more than its fair share, rounded up,
      and one packet; when one may wrap, no more than half as many shares allow. */
  lemma BalancedBound(works: seq<u64>, out: seq<Partition>, parts: u32, m: nat, k: nat)
    requires 1 <= parts <= |works| < TWO_32 && k < parts && PacketsWithin(works, m)
    requires Tiles(out, |works|, parts) && forall j :: 0 <= j < parts ==> out[j].end == Cuts(works, parts)[j]
    ensures out[k].begin <= out[k].end <= |works|
    ensures Load(works, out[k].begin, out[k].end) <=
            if Load(works, 0, |works|) + parts - 1 <= U64_MAX then CeilDiv(Load(works, 0, |works|), parts) + m - 1
            else CeilDiv(SeenLoad(works, 0, |works|), (parts + 1) / 2) + m - 1 + Unseen(works)
  {
    if Load(works, 0, |works|) + parts - 1 <= U64_MAX {
      SharedBound(works, out, parts, m, k);
    } else {
      BoundOnAnyTotal(works, out, parts, m, k);
    }
  }

  /** The sum may not wrap: here total + parts - 1 is 2^64, the target wraps to zero
      and the second partition is left with nearly everything. */
  lemma WrappedTargetUnbalances(quarter: u64, works: seq<u64>)
    requires quarter == 0x4000_0000_0000_0000 && works == [1, quarter, quarter, quarter, quarter - 2]
    ensures Load(works, 0, 5) + 2 - 1 == TWO_64 && PacketsWithin(works, quarter)
    ensures Cuts(works, 2) == [1, 5] && Load(works, 1, 5) == TWO_64 - 2
    ensures TWO_64 - 2 > CeilDiv(Load(works, 0, 5), 2) + quarter - 1
  {
    LoadSplits(works, 0, 1, 5);
    assert Load(works, 0, 1) == Load(works, 0, 0) + 1;
    assert Load(works, 1, 2) == Load(works, 1, 1) + quarter;
    assert Load(works, 1, 3) == Load(works, 1, 2) + quarter;
    assert Load(works, 1, 4) == Load(works, 1, 3) + quarter;
    assert Load(works, 1, 5) == Load(works, 1, 4) + quarter - 2;
    assert Target(U64_MAX, 2) == 0;
    assert Take(works, 0, 0, 4, 0) == 1;
  }

  // ---------------------------------------------------- against any other plan

  /** What worker w carries when packet i goes to worker owner[i]. */
  function WorkerLoad(works: seq<u64>, owner: seq<nat>, w: nat): nat
    requires |owner| == |works|
  {
    if works == [] then 0
    else
      var last := |works| - 1;
      WorkerLoad(works[..last], owner[..last], w) + if owner[last] == w then NormalizeWorkUnits(works[last]) else 0
  }

  function LoadBelow(works: seq<u64>, owner: seq<nat>, parts: nat): nat
    requires |owner| == |works|
  {
    if parts == 0 then 0 else LoadBelow(works, owner, parts - 1) + WorkerLoad(works, owner, parts - 1)
  }

  lemma {:induction false} LoadOfPrefix(works: seq<u64>, more: seq<u64>, begin: nat, end: nat)
    requires begin <= end <= |works| <= |more| && more[..|works|] == works
    ensures Load(works, begin, end) == Load(more, begin, end)
    decreases end
  {
    if begin < end {
      LoadOfPrefix(works, more, begin, end - 1);
      assert works[end - 1] == more[..|works|][end - 1];
    }
  }

  lemma {:induction false} DropLastOwner(works: seq<u64>, owner: seq<nat>, parts: nat)
    requires |owner| == |works| > 0
    ensures var last := |works| - 1;
            LoadBelow(works, owner, parts) ==
            LoadBelow(works[..last], owner[..last], parts)
            + (if owner[last] < parts then NormalizeWorkUnits(works[last]) else 0)
  {
    if parts > 0 {
      DropLastOwner(works, owner, parts - 1);
    }
  }

  lemma {:induction false} NothingToCarry(parts: nat)
    ensures LoadBelow([], [], parts) == 0
  {
    if parts > 0 {
      NothingToCarry(parts - 1);
    }
  }

  /** However the packets are handed out, the workers carry the total between them. */
  lemma {:induction false} WorkersCarryTotal(works: seq<u64>, owner: seq<nat>, parts: nat)
    requires |owner| == |works| && forall i :: 0 <= i < |owner| ==> owner[i] < parts
    ensures LoadBelow(works, owner, parts) == Load(works, 0, |works|)
    decreases |works|
  {
    if works == [] {
      NothingToCarry(parts);
    } else {
      var last := |works| - 1;
      WorkersCarryTotal(works[..last], owner[..last], parts);
      DropLastOwner(works, owner, parts);
      LoadOfPrefix(works[..last], works, 0, last);
    }
  }

  lemma {:induction false} LoadBelowBounded(works: seq<u64>, owner: seq<nat>, parts: nat, most: nat)
    requires |owner| == |works| && forall w :: 0 <= w < parts ==> WorkerLoad(works, owner, w) <= most
    ensures LoadBelow(works, owner, parts) <= most * parts
  {
    if parts > 0 {
      LoadBelowBounded(works, owner, parts - 1, most);
      assert most * parts == most * (parts - 1) + most;
    }
  }

  lemma {:induction false} OwnerCarriesPacket(works: seq<u64>, owner: seq<nat>, i: nat)
    requires |owner| == |works| && i < |works|
    ensures NormalizeWorkUnits(works[i]) <= WorkerLoad(works, owner, owner[i])
    decreases |works|
  {
    var last := |works| - 1;
    if i < last {
      OwnerCarriesPacket(works[..last], owner[..last], i);
    }
  }

  lemma {:induction false} HeaviestPacket(works: seq<u64>) returns (i: nat)
    requires works != []
    ensures i < |works| && PacketsWithin(works, NormalizeWorkUnits(works[i]))
  {
    var last := |works| - 1;
    if last == 0 {
      i := 0;
    } else {
      i := HeaviestPacket(works[..last]);
      assert PacketsWithin(works[..last], NormalizeWorkUnits(works[..last][i]));
      assert forall j :: 0 <= j < last ==> works[..last][j] == works[j];
      if NormalizeWorkUnits(works[i]) < NormalizeWorkUnits(works[last]) {
        i := last;
      }
    }
  }

  lemma UnderTwiceWhileShared(works: seq<u64>, out: seq<Partition>, parts: u32, owner: seq<nat>, most: nat, k: nat)
    requires 1 <= parts <= |works| < TWO_32 && k < parts
    requires Tiles(out, |works|, parts) && forall j :: 0 <= j < parts ==> out[j].end == Cuts(works, parts)[j]
    requires Load(works, 0, |works|) + parts - 1 <= U64_MAX
    requires |owner| == |works| && forall i :: 0 <= i < |owner| ==> owner[i] < parts
    requires forall w :: 0 <= w < parts ==> WorkerLoad(works, owner, w) <= most
    ensures out[k].begin <= out[k].end <= |works|
    ensures Load(works, out[k].begin, out[k].end) < 2 * most
  {
    var i := HeaviestPacket(works);
    OwnerCarriesPacket(works, owner, i);
    SharedBound(works, out, parts, NormalizeWorkUnits(works[i]), k);
    WorkersCarryTotal(works, owner, parts);
    LoadBelowBounded(works, owner, parts, most);
    CeilDivAtMost(Load(works, 0, |works|), parts, most);
  }

  lemma HalfAsManyShares(total: nat, parts: nat, half: nat, most: nat)
    requires total <= most * parts && parts <= 2 * half && half > 0
    ensures CeilDiv(total, half) <= 2 * most
  {
    MulMonotone(parts, 2 * half, most);
    assert 2 * half * most == 2 * most * half;
    CeilDivAtMost(total, half, 2 * most);
  }

  /** Under three times the optimum for every total, but for the work that does not fit
      the accumulator. */
  lemma UnderThriceAnyPlan(works: seq<u64>, out: seq<Partition>, parts: u32, owner: seq<nat>, most: nat, k: nat)
    requires 1 <= parts <= |works| < TWO_32 && k < parts
    requires Tiles(out, |works|, parts) && forall j :: 0 <= j < parts ==> out[j].end == Cuts(works, parts)[j]
    requires |owner| == |works| && forall i :: 0 <= i < |owner| ==> owner[i] < parts
    requires forall w :: 0 <= w < parts ==> WorkerLoad(works, owner, w) <= most
    ensures out[k].begin <= out[k].end <= |works|
    ensures Load(works, out[k].begin, out[k].end) < 3 * most + Unseen(works)
  {
    var half := (parts + 1) / 2;
    var i := HeaviestPacket(works);
    OwnerCarriesPacket(works, owner, i);
    BoundOnAnyTotal(works, out, parts, NormalizeWorkUnits(works[i]), k);
    WorkersCarryTotal(works, owner, parts);
    LoadBelowBounded(works, owner, parts, most);
    HalfAsManyShares(SeenLoad(works, 0, |works|), parts, half, most);
  }

  /** Against the optimum: whatever way the packets are handed to as many workers,
      contiguous or not, if none of them carries more than `most` then every balanced
      partition carries less than twice that, or less than three times that and the
      unseen work when a target may wrap. */
  lemma UnderTwiceAnyPlan(works: seq<u64>, out: seq<Partition>, parts: u32, owner: seq<nat>, most: nat, k: nat)
    requires 1 <= parts <= |works| < TWO_32 && k < parts
    requires Tiles(out, |works|, parts) && forall j :: 0 <= j < parts ==> out[j].end == Cuts(works, parts)[j]
    requires |owner| == |works| && forall i :: 0 <= i < |owner| ==> owner[i] < parts
    requires forall w :: 0 <= w < parts ==> WorkerLoad(works, owner, w) <= most
    ensures out[k].begin <= out[k].end <= |works|
    ensures Load(works, out[k].begin, out[k].end) <
            if Load(works, 0, |works|) + parts - 1 <= U64_MAX then 2 * most else 3 * most + Unseen(works)
  {
    if Load(works, 0, |works|) + parts - 1 <= U64_MAX {
      UnderTwiceWhileShared(works, out, parts, owner, most, k);
    } else {
      UnderThriceAnyPlan(works, out, parts, owner, most, k);
    }
  }
}
