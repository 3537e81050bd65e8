/** Deterministic reduction over a fixed binary tree: the edge count, the generator
    that lays the tree out as a list of edges over scratch slots, and the interpreter
    that runs such a list (kernel/src/reduction/fold, kernel/src/reduction/graph). */
module FoldGraph {
  import opened Words

  const U32_MAX: int := TWO_32 - 1

  datatype Operation = XorFold | MaxFold | MinFold | SaturatingAddFold | HashFold

  const ODD_PADDING: u64 := 0xA11CE5

  function MixHash(seed: u64, value: u64): u64 {
    XorWord(seed, (value + 0x9E37_79B9_7F4A_7C15 + seed * 64 % TWO_64 + seed / 4) % TWO_64);
    Words.Xor(seed, (value + 0x9E37_79B9_7F4A_7C15 + seed * 64 % TWO_64 + seed / 4) % TWO_64)
  }

  function CombineHashes(left: u64, right: u64): u64 {
    MixHash(MixHash(0xC6A4_A793_5BD1_E995, left), right)
  }

  function Combine(op: Operation, left: u64, right: u64): u64 {
    match op
    case XorFold => XorWord(left, right); Words.Xor(left, right)
    case MaxFold => Max(left, right)
    case MinFold => Min(left, right)
    case SaturatingAddFold => SatAdd(left, right)
    case HashFold => CombineHashes(left, right)
  }

  function Identity(op: Operation): u64 {
    if op == MinFold then U64_MAX else 0
  }

  datatype PaddingLaw = NoPadding | IdentityPadding | UnsignedMaxPadding | FixedHashOddPadding

  function LawOf(op: Operation): PaddingLaw {
    match op
    case HashFold => FixedHashOddPadding
    case MinFold => UnsignedMaxPadding
    case _ => IdentityPadding
  }

  function Padding(op: Operation): u64 {
    match LawOf(op)
    case IdentityPadding => Identity(op)
    case UnsignedMaxPadding => U64_MAX
    case FixedHashOddPadding => ODD_PADDING
    case NoPadding => 0
  }

  // ------------------------------------------------------------------- how many edges

  /** Slots of the next level up. */
  function Half(n: u32): u32 {
    WrapAdd32(n, 1) / 2
  }

  method FixedBinaryTreeEdgeCount(slots: u32) returns (edges: u32)
    ensures edges == EdgeCount(slots)
  {
    edges := 0;
    var active := slots;
    while active > 1
      invariant EdgeCount(slots) == WrapAdd32(edges, EdgeCount(active))
      decreases active
    {
      edges, active := WrapAdd32(edges, Half(active)), Half(active);
    }
  }

  function EdgeCount(n: u32): u32 {
    if n <= 1 then 0 else WrapAdd32(Half(n), EdgeCount(Half(n)))
  }

  /** Half of n, rounded up. */
  ghost function Up(n: nat): (r: nat)
    ensures n <= 2 * r <= n + 1
  {
    (n + 1) / 2
  }

  /** The same recurrence without a word size. */
  ghost function TreeEdges(n: nat): nat {
    if n <= 1 then 0 else Up(n) + TreeEdges(Up(n))
  }

  /** Levels of the tree: the logarithm of n, rounded up. */
  ghost function Levels(n: nat): nat {
    if n <= 1 then 0 else 1 + Levels(Up(n))
  }

  lemma {:induction false} LevelsIsCeilLog2(n: nat)
    requires n >= 1
    ensures n <= Pow2(Levels(n))
    ensures n > 1 ==> Pow2(Levels(n) - 1) < n
  {
    hide Up;
    if n > 1 {
      LevelsIsCeilLog2(Up(n));
    }
  }

  /** One edge per internal node, and at most one spare, padded, edge per level. */
  lemma {:induction false} TreeEdgesBounds(n: nat)
    requires n >= 1
    ensures n - 1 <= TreeEdges(n) <= n - 1 + Levels(n)
    ensures TreeEdges(n) <= Pow2(Levels(n)) - 1
  {
    hide Up;
    if n > 1 {
      TreeEdgesBounds(Up(n));
      LevelsIsCeilLog2(Up(n));
    }
  }

  lemma {:induction false} LevelsBelow(n: nat, bits: nat)
    requires n <= Pow2(bits)
    ensures Levels(n) <= bits
    decreases bits
  {
    if n > 1 && bits > 0 {
      LevelsBelow(Up(n), bits - 1);
    }
  }

  lemma TreeEdgesFit(n: nat)
    requires n <= TWO_32
    ensures TreeEdges(n) <= U32_MAX
  {
    if n > 1 {
      Pow2Values();
      LevelsBelow(n, 32);
      TreeEdgesBounds(n);
      Pow2Monotone(Levels(n), 32);
    }
  }

  lemma {:induction false} SmallCountIsExact(n: u32)
    requires n < U32_MAX
    ensures EdgeCount(n) == TreeEdges(n)
  {
    if n > 1 {
      SmallCountIsExact(Half(n));
      TreeEdgesFit(n);
    }
  }

  /** The counted edges are the tree's edges for every count but the largest word,
      whose `active_count + 1` wraps to zero and leaves no edge at all. */
  lemma EdgeCountExactIff(n: u32)
    ensures EdgeCount(n) == TreeEdges(n) <==> n != U32_MAX
    ensures EdgeCount(U32_MAX) == 0
  {
    if n == U32_MAX {
      TreeEdgesBounds(n);
      assert Half(U32_MAX) == 0;
    } else {
      SmallCountIsExact(n);
    }
  }

  function NodeCount(n: u32): u32 {
    if n == 0 || n > U32_MAX / 2 then 0
    else
      var ordered, edges := n * 2, EdgeCount(n);
      if edges > U32_MAX - ordered then 0 else ordered + edges
  }

  /** Zero stands for exactly the counts whose nodes do not fit a word. */
  lemma NodeCountMeans(n: u32)
    ensures NodeCount(n) == if n >= 1 && 2 * n + TreeEdges(n) <= U32_MAX then 2 * n + TreeEdges(n) else 0
  {
    if n <= U32_MAX / 2 {
      SmallCountIsExact(n);
    }
  }

  // ----------------------------------------------------------------- laying out edges

  datatype Edge = Edge(level: nat, left: nat, right: nat, output: nat, operation: Operation, law: PaddingLaw,
                       padded: bool, padding: u64)

  datatype ValueDomain = BitwiseInteger | UnsignedInteger | HashDigest

  function DomainOf(op: Operation): ValueDomain {
    match op
    case XorFold => BitwiseInteger
    case HashFold => HashDigest
    case _ => UnsignedInteger
  }

  datatype OverflowLaw = BitwiseLaw | UnsignedCompare | SaturatingUnsignedAdd | FixedHashMix

  function OverflowOf(op: Operation): OverflowLaw {
    match op
    case XorFold => BitwiseLaw
    case SaturatingAddFold => SaturatingUnsignedAdd
    case HashFold => FixedHashMix
    case _ => UnsignedCompare
  }

  datatype NodeKind = WorkerLocalPartial | GlobalOrderedSlot | Reduction

  datatype Node = Node(kind: NodeKind, index: nat, slot: nat, left: nat, right: nat, operation: Operation,
                       domain: ValueDomain, law: PaddingLaw, overflow: OverflowLaw, padded: bool)

  /** The node the generator records beside an edge. */
  function EdgeNode(e: Edge, index: nat): Node {
    Node(Reduction, index, e.output, e.left, e.right, e.operation, DomainOf(e.operation), e.law,
         OverflowOf(e.operation), e.padded)
  }

  function EdgeNodes(edges: seq<Edge>, first: nat): (r: seq<Node>)
    ensures |r| == |edges|
  {
    seq(|edges|, i requires 0 <= i < |edges| => EdgeNode(edges[i], first + i))
  }

  /** Edge of pair k among `active` slots from `base`. */
  function PairEdge(op: Operation, level: nat, base: nat, active: nat, output: nat, k: nat): Edge {
    if 2 * k + 1 < active
    then Edge(level, base + 2 * k, base + 2 * k + 1, output + k, op, NoPadding, false, 0)
    else Edge(level, base + 2 * k, base + 2 * k, output + k, op, LawOf(op), true, Padding(op))
  }

  /** The first k edges of a level. */
  function LevelEdges(op: Operation, level: nat, base: nat, active: nat, output: nat, k: nat): (r: seq<Edge>)
    ensures |r| == k
  {
    if k == 0 then []
    else LevelEdges(op, level, base, active, output, k - 1) + [PairEdge(op, level, base, active, output, k - 1)]
  }

  /** All edges above `active` slots from `base`, results from `output` on. */
  ghost function EdgesAbove(op: Operation, level: nat, base: nat, active: nat, output: nat): (r: seq<Edge>)
    ensures |r| == TreeEdges(active)
    decreases active
  {
    if active <= 1 then []
    else LevelEdges(op, level, base, active, output, Up(active))
         + EdgesAbove(op, level + 1, output, Up(active), output + Up(active))
  }

  lemma NodesSplit(a: seq<Edge>, b: seq<Edge>, first: nat)
    ensures EdgeNodes(a + b, first) == EdgeNodes(a, first) + EdgeNodes(b, first + |a|)
  {
  }

  lemma NothingYet(op: Operation, level: nat, base: nat, active: nat, output: nat, first: nat)
    ensures LevelEdges(op, level, base, active, output, 0) == [] && EdgeNodes([], first) == []
  {
  }

  lemma RowGrows(op: Operation, level: nat, base: nat, active: nat, output: nat, k: nat, before: seq<Edge>,
                 nodes: seq<Node>)
    ensures var row, e := LevelEdges(op, level, base, active, output, k), PairEdge(op, level, base, active, output, k);
            var longer := LevelEdges(op, level, base, active, output, k + 1);
            && before + longer == before + row + [e]
            && nodes + EdgeNodes(longer, |nodes|) == nodes + EdgeNodes(row, |nodes|) + [EdgeNode(e, |nodes| + k)]
  {
    var row, e := LevelEdges(op, level, base, active, output, k), PairEdge(op, level, base, active, output, k);
    assert LevelEdges(op, level, base, active, output, k + 1) == row + [e];
    NodesSplit(row, [e], |nodes|);
  }

  lemma PairWritten(op: Operation, level: nat, base: nat, active: nat, output: nat, k: nat)
    ensures var hasRight := 2 * k + 1 < active;
            PairEdge(op, level, base, active, output, k) ==
            Edge(level, base + 2 * k, if hasRight then base + 2 * k + 1 else base + 2 * k, output + k, op,
                 if hasRight then NoPadding else LawOf(op), !hasRight, if hasRight then 0 else Padding(op))
  {
  }

  /** The inner loop: one level of edges, written into place, and their nodes. */
  method AppendLevel(edges: array<Edge>, first: nat, nodes: seq<Node>, op: Operation, level: u32, base: u32,
                     active: u32, output: u32)
    returns (more: seq<Node>)
    requires active > 1 && base + active <= output && first + Up(active) <= edges.Length
    requires output + Up(active) <= U32_MAX
    modifies edges
    ensures edges[..first + Up(active)]
         == old(edges[..first]) + LevelEdges(op, level, base, active, output, Up(active))
    ensures more == nodes + EdgeNodes(LevelEdges(op, level, base, active, output, Up(active)), |nodes|)
  {
    hide Up;
    hide LevelEdges;
    hide EdgeNodes;
    hide EdgeNode;
    hide LawOf;
    hide Padding;
    hide PairEdge;
    var pair: u32 := 0;
    ghost var k: nat := 0;
    more := nodes;
    NothingYet(op, level, base, active, output, |nodes|);
    while pair < active
      invariant pair == 2 * k && k <= Up(active)
      invariant edges[..first + k] == old(edges[..first]) + LevelEdges(op, level, base, active, output, k)
      invariant more == nodes + EdgeNodes(LevelEdges(op, level, base, active, output, k), |nodes|)
    {
      var hasRight := pair + 1 < active;
      var left: u32, target: u32 := base + pair, output + pair / 2;
      var right: u32 := if hasRight then base + pair + 1 else base + pair;
      var at := first + pair / 2;
      edges[at] := Edge(level, left, right, target, op, if hasRight then NoPadding else LawOf(op),
                        !hasRight, if hasRight then 0 else Padding(op));
      more := more + [EdgeNode(edges[at], |more|)];
      PairWritten(op, level, base, active, output, k);
      assert edges[..at + 1] == edges[..at] + [edges[at]];
      RowGrows(op, level, base, active, output, k, old(edges[..first]), nodes);
      pair, k := pair + 2, k + 1;
    }
  }

  lemma FewLevels(n: u32)
    ensures Levels(n) <= 32
  {
    Pow2Values();
    LevelsBelow(n, 32);
  }

  lemma EdgesSplit(op: Operation, level: nat, base: nat, active: nat, output: nat, half: nat)
    requires active > 1 && half == Up(active)
    ensures EdgesAbove(op, level, base, active, output)
         == LevelEdges(op, level, base, active, output, half) + EdgesAbove(op, level + 1, output, half, output + half)
  {
  }

  /** One round of the outer loop. `rest` are the edges still to come. */
  method AppendNext(edges: array<Edge>, first: nat, nodes: seq<Node>, op: Operation, level: u32, base: u32,
                    active: u32, output: u32, half: u32, ghost rest: seq<Edge>)
    returns (ghost left: seq<Edge>, more: seq<Node>)
    requires active > 1 && base + active <= output && half == Up(active) && output + half <= U32_MAX
    requires first + half <= edges.Length
    requires rest == EdgesAbove(op, level, base, active, output)
    modifies edges
    ensures left == EdgesAbove(op, level + 1, output, half, output + half)
    ensures edges[..first + half] + left == old(edges[..first]) + rest
    ensures |more| == |nodes| + half
    ensures more + EdgeNodes(left, |more|) == nodes + EdgeNodes(rest, |nodes|)
  {
    hide Up;
    ghost var row := LevelEdges(op, level, base, active, output, half);
    left := EdgesAbove(op, level + 1, output, half, output + half);
    EdgesSplit(op, level, base, active, output, half);
    ConcatAssociates(edges[..first], row, left);
    NodesSplit(row, left, |nodes|);
    more := AppendLevel(edges, first, nodes, op, level, base, active, output);
  }

  /** What is left of the tree above a level. */
  ghost predicate Remaining(active: nat, edges: int, levels: int) {
    edges == TreeEdges(active) && levels == Levels(active)
  }

  lemma LevelUses(active: nat, edges: int, levels: int)
    requires Remaining(active, edges, levels) && active > 1
    ensures 1 <= Up(active) < active && Remaining(Up(active), edges - Up(active), levels - 1)
    ensures edges >= Up(active) && levels >= 1
  {
  }

  lemma NothingAbove(op: Operation, level: nat, base: nat, active: nat, output: nat, first: nat)
    requires active <= 1
    ensures EdgesAbove(op, level, base, active, output) == [] && EdgeNodes([], first) == []
  {
  }

  /** Half of a word, rounded up, as the loops compute it. */
  lemma HalfIsUp(n: u32)
    requires n < U32_MAX
    ensures (n + 1) / 2 == Up(n)
  {
  }

  /** The outer loop. It fills exactly the edges that were counted, and the last one
      writes the last slot. */
  method AppendReductionTree(edges: array<Edge>, nodes: seq<Node>, n: u32, op: Operation)
    returns (final: u32, more: seq<Node>)
    requires n >= 1 && n + TreeEdges(n) <= U32_MAX && edges.Length == TreeEdges(n)
    modifies edges
    ensures edges[..] == EdgesAbove(op, 0, 0, n, n) && final == n + TreeEdges(n) - 1
    ensures more == nodes + EdgeNodes(EdgesAbove(op, 0, 0, n, n), |nodes|)
  {
    hide Up;
    hide EdgesAbove;
    hide EdgeNodes;
    FewLevels(n);
    final, more := n - 1, nodes;
    var index: nat, level: u32, base: u32, active: u32, output: u32 := 0, 0, 0, n, n;
    ghost var all := EdgesAbove(op, 0, 0, n, n);
    ghost var rest, edgesLeft, levelsLeft := all, TreeEdges(n), Levels(n);
    while active > 1
      invariant Remaining(active, edgesLeft, levelsLeft) && 1 <= active
      invariant base + active <= output && output + edgesLeft == n + edges.Length && level + levelsLeft <= 32
      invariant index + edgesLeft == edges.Length && final == output - 1
      invariant rest == EdgesAbove(op, level, base, active, output)
      invariant all == edges[..index] + rest && more + EdgeNodes(rest, |more|) == nodes + EdgeNodes(all, |nodes|)
      decreases active
    {
      LevelUses(active, edgesLeft, levelsLeft);
      HalfIsUp(active);
      var half: u32 := (active + 1) / 2;
      rest, more := AppendNext(edges, index, more, op, level, base, active, output, half, rest);
      final := output + half - 1;
      edgesLeft, levelsLeft := edgesLeft - half, levelsLeft - 1;
      index, base, output, active, level := index + half, output, output + half, half, level + 1;
    }
    NothingAbove(op, level, base, active, output, |more|);
    assert edges[..index] == edges[..];
  }

  // ------------------------------------------------------------- running the edges

  type Combiner = (u64, u64) -> u64

  function CombinerOf(op: Operation): Combiner {
    (left: u64, right: u64) => Combine(op, left, right)
  }

  predicate EdgeInBounds(e: Edge, slots: nat) {
    e.left < slots && e.right < slots && e.output < slots
  }

  ghost predicate AllInBounds(edges: seq<Edge>, slots: nat) {
    forall k :: 0 <= k < |edges| ==> EdgeInBounds(edges[k], slots)
  }

  function RunEdge(f: Combiner, slots: seq<u64>, e: Edge): seq<u64> {
    if EdgeInBounds(e, |slots|)
    then slots[e.output := f(slots[e.left], if e.padded then e.padding else slots[e.right])]
    else slots
  }

  function RunEdges(f: Combiner, slots: seq<u64>, edges: seq<Edge>): (r: seq<u64>)
    ensures |r| == |slots|
  {
    if edges == [] then slots
    else RunEdge(f, RunEdges(f, slots, edges[..|edges| - 1]), edges[|edges| - 1])
  }

  /** The scratch slots after the partition values are in place. */
  function Placed(slots: seq<u64>, foldSlots: seq<u32>, values: seq<u64>, k: nat): (r: seq<u64>)
    requires k <= |foldSlots| && k <= |values|
    ensures |r| == |slots|
  {
    if k == 0 then slots
    else
      var before := Placed(slots, foldSlots, values, k - 1);
      if foldSlots[k - 1] < |before| then before[foldSlots[k - 1] := values[k - 1]] else before
  }

  // ------------------------------------------------------- the tree's own meaning

  function PairAt(f: Combiner, pad: u64, values: seq<u64>, k: nat): u64
    requires 2 * k < |values|
  {
    f(values[2 * k], if 2 * k + 1 < |values| then values[2 * k + 1] else pad)
  }

  /** One level up: the first k pairs of neighbours combined, an odd one out combined
      with the padding. */
  ghost function Pairs(f: Combiner, pad: u64, values: seq<u64>, k: nat): (r: seq<u64>)
    requires k <= Up(|values|)
    ensures |r| == k
  {
    if k == 0 then [] else Pairs(f, pad, values, k - 1) + [PairAt(f, pad, values, k - 1)]
  }

  ghost function TreeFold(f: Combiner, pad: u64, values: seq<u64>): u64
    requires values != []
    decreases |values|
  {
    if |values| == 1 then values[0] else TreeFold(f, pad, Pairs(f, pad, values, Up(|values|)))
  }

  lemma {:induction false} RunAppend(f: Combiner, slots: seq<u64>, a: seq<Edge>, b: seq<Edge>)
    ensures RunEdges(f, slots, a + b) == RunEdges(f, RunEdges(f, slots, a), b)
    decreases |b|
  {
    if b == [] {
      assert a + b == a;
    } else {
      var last := |b| - 1;
      assert (a + b)[..|a + b| - 1] == a + b[..last];
      RunAppend(f, slots, a, b[..last]);
    }
  }

  lemma RunPair(f: Combiner, slots: seq<u64>, before: seq<u64>, op: Operation, level: nat, base: nat, active: nat,
        output: nat, k: nat)
    requires base + active <= output && output + Up(active) <= |slots| == |before| && k < Up(active)
    requires before[..output] == slots[..output]
    ensures RunEdge(f, before, PairEdge(op, level, base, active, output, k))
         == before[output + k := PairAt(f, Padding(op), slots[base..base + active], k)]
  {
    assert forall i :: 0 <= i < output ==> before[i] == before[..output][i] == slots[..output][i] == slots[i];
  }

  lemma RunLast(f: Combiner, slots: seq<u64>, edges: seq<Edge>, e: Edge)
    ensures RunEdges(f, slots, edges + [e]) == RunEdge(f, RunEdges(f, slots, edges), e)
  {
    assert (edges + [e])[..|edges|] == edges;
  }

  /** The inputs of a level, and all below, are as they were; k pairs are in place. */
  ghost predicate LevelDone(f: Combiner, pad: u64, slots: seq<u64>, after: seq<u64>, base: nat, active: nat,
        output: nat, k: nat)
    requires base + active <= output && output + Up(active) <= |slots| && k <= Up(active)
  {
    && |after| == |slots| && after[..output] == slots[..output]
    && after[output..output + k] == Pairs(f, pad, slots[base..base + active], k)
  }

  lemma ExtendLevel(f: Combiner, pad: u64, slots: seq<u64>, before: seq<u64>, base: nat, active: nat, output: nat,
        k: nat, value: u64)
    requires base + active <= output && output + Up(active) <= |slots| && k < Up(active)
    requires LevelDone(f, pad, slots, before, base, active, output, k)
    requires value == PairAt(f, pad, slots[base..base + active], k)
    ensures LevelDone(f, pad, slots, before[output + k := value], base, active, output, k + 1)
  {
    assert before[output + k := value][output..output + k + 1] == before[output..output + k] + [value];
  }

  lemma LevelStarts(f: Combiner, slots: seq<u64>, op: Operation, level: nat, base: nat, active: nat, output: nat)
    requires base + active <= output && output + Up(active) <= |slots|
    ensures LevelDone(f, Padding(op), slots, RunEdges(f, slots, LevelEdges(op, level, base, active, output, 0)), base,
                      active, output, 0)
  {
  }

  lemma {:induction false} RunLevel(f: Combiner, slots: seq<u64>, op: Operation, level: nat, base: nat, active: nat,
                                    output: nat, k: nat)
    requires base + active <= output && output + Up(active) <= |slots| && k <= Up(active)
    ensures LevelDone(f, Padding(op), slots, RunEdges(f, slots, LevelEdges(op, level, base, active, output, k)), base,
                      active, output, k)
  {
    hide Up;
    hide PairEdge;
    hide PairAt;
    hide RunEdge;
    hide RunEdges;
    if k == 0 {
      LevelStarts(f, slots, op, level, base, active, output);
    } else {
      var row := LevelEdges(op, level, base, active, output, k - 1);
      var before := RunEdges(f, slots, row);
      RunLevel(f, slots, op, level, base, active, output, k - 1);
      RunPair(f, slots, before, op, level, base, active, output, k - 1);
      RunLast(f, slots, row, PairEdge(op, level, base, active, output, k - 1));
      var value := PairAt(f, Padding(op), slots[base..base + active], k - 1);
      ExtendLevel(f, Padding(op), slots, before, base, active, output, k - 1, value);
    }
  }

  /** The slot that ends up with the fold. */
  ghost function TopSlot(base: nat, active: nat, output: nat): (r: nat)
    requires 1 <= active && base + active <= output
    ensures r < output + TreeEdges(active)
  {
    if active == 1 then base else output + TreeEdges(active) - 1
  }

  lemma TopSlotAbove(base: nat, active: nat, output: nat)
    requires 1 < active && base + active <= output
    ensures 1 <= Up(active) < active && TreeEdges(active) == Up(active) + TreeEdges(Up(active))
    ensures TopSlot(base, active, output) == TopSlot(output, Up(active), output + Up(active))
  {
  }

  lemma FoldStep(f: Combiner, pad: u64, values: seq<u64>, half: nat)
    requires |values| > 1 && half == Up(|values|)
    ensures TreeFold(f, pad, values) == TreeFold(f, pad, Pairs(f, pad, values, half))
  {
  }

  /** Running one level turns the fold of its values into the fold of their pairs. */
  lemma RunRow(f: Combiner, slots: seq<u64>, op: Operation, level: nat, base: nat, active: nat, output: nat, half: nat)
    returns (row: seq<Edge>)
    requires 1 < active && half == Up(active) && base + active <= output && output + half <= |slots|
    ensures row == LevelEdges(op, level, base, active, output, half)
    ensures TreeFold(f, Padding(op), slots[base..base + active])
         == TreeFold(f, Padding(op), RunEdges(f, slots, row)[output..output + half])
  {
    hide TreeFold;
    hide Pairs;
    hide RunEdges;
    hide LevelEdges;
    row := LevelEdges(op, level, base, active, output, half);
    RunLevel(f, slots, op, level, base, active, output, half);
    FoldStep(f, Padding(op), slots[base..base + active], half);
  }

  lemma RunSplit(f: Combiner, slots: seq<u64>, op: Operation, level: nat, base: nat, active: nat, output: nat,
                 half: nat)
    returns (middle: seq<u64>)
    requires 1 < active && half == Up(active) && base + active <= output && output + half <= |slots|
    ensures |middle| == |slots|
    ensures TreeFold(f, Padding(op), slots[base..base + active])
         == TreeFold(f, Padding(op), middle[output..output + half])
    ensures RunEdges(f, slots, EdgesAbove(op, level, base, active, output))
         == RunEdges(f, middle, EdgesAbove(op, level + 1, output, half, output + half))
  {
    hide Up;
    var row := RunRow(f, slots, op, level, base, active, output, half);
    middle := RunEdges(f, slots, row);
    EdgesSplit(op, level, base, active, output, half);
    RunAppend(f, slots, row, EdgesAbove(op, level + 1, output, half, output + half));
  }

  /** After running `edges`, the top slot holds the fold of the values. */
  ghost predicate Folds(f: Combiner, pad: u64, slots: seq<u64>, edges: seq<Edge>, top: nat, values: seq<u64>)
    requires values != []
  {
    top < |slots| && RunEdges(f, slots, edges)[top] == TreeFold(f, pad, values)
  }

  lemma RunLeaf(f: Combiner, slots: seq<u64>, op: Operation, level: nat, base: nat, output: nat)
    requires base + 1 <= output <= |slots|
    ensures Folds(f, Padding(op), slots, EdgesAbove(op, level, base, 1, output), base, slots[base..base + 1])
  {
  }

  /** Running all the edges above a level folds it. */
  lemma {:induction false} RunTree(f: Combiner, slots: seq<u64>, op: Operation, level: nat, base: nat, active: nat,
        output: nat)
    requires 1 <= active && base + active <= output && output + TreeEdges(active) <= |slots|
    ensures Folds(f, Padding(op), slots, EdgesAbove(op, level, base, active, output), TopSlot(base, active, output),
                  slots[base..base + active])
    decreases active
  {
    hide Up;
    hide TreeEdges;
    hide EdgesAbove;
    hide RunEdges;
    hide TreeFold;
    if active == 1 {
      RunLeaf(f, slots, op, level, base, output);
    } else {
      var half := Up(active);
      TopSlotAbove(base, active, output);
      var middle := RunSplit(f, slots, op, level, base, active, output, half);
      RunTree(f, middle, op, level + 1, output, half, output + half);
    }
  }

  // -------------------------------------------------------- independent of the tree

  /** The values combined from left to right. */
  function LeftFold(f: Combiner, values: seq<u64>): u64
    requires values != []
  {
    var last := |values| - 1;
    if last == 0 then values[0] else f(LeftFold(f, values[..last]), values[last])
  }

  ghost predicate Associative(f: Combiner) {
    forall a: u64, b: u64, c: u64 :: f(f(a, b), c) == f(a, f(b, c))
  }

  ghost predicate Neutral(f: Combiner, pad: u64) {
    forall a: u64 :: f(a, pad) == a
  }

  lemma OperationLaws(op: Operation)
    requires op != HashFold
    ensures Associative(CombinerOf(op)) && Neutral(CombinerOf(op), Padding(op))
  {
    forall a: u64, b: u64, c: u64 | true
      ensures Combine(op, Combine(op, a, b), c) == Combine(op, a, Combine(op, b, c))
    {
      XorAssociates(a, b, c);
    }
    forall a: u64 | true
      ensures Combine(op, a, Padding(op)) == a
    {
      XorZero(a);
    }
  }

  lemma {:induction false} PairsOfPrefix(f: Combiner, pad: u64, values: seq<u64>, m: nat, k: nat)
    requires 2 * k <= m <= |values|
    requires m % 2 == 0
    ensures Pairs(f, pad, values[..m], k) == Pairs(f, pad, values, k)
  {
    if k > 0 {
      PairsOfPrefix(f, pad, values, m, k - 1);
    }
  }

  /** The last pair, or the odd one out, is what the fold takes in last. */
  lemma LastPair(f: Combiner, pad: u64, values: seq<u64>, k: nat)
    requires |values| == 2 * k + 1 || |values| == 2 * k + 2
    requires Associative(f) && Neutral(f, pad)
    ensures LeftFold(f, values)
         == if k == 0 then PairAt(f, pad, values, 0) else f(LeftFold(f, values[..2 * k]), PairAt(f, pad, values, k))
  {
    if |values| == 2 * k + 2 {
      assert values[..2 * k + 1][..2 * k] == values[..2 * k];
      if k > 0 {
        var front := LeftFold(f, values[..2 * k]);
        assert f(f(front, values[2 * k]), values[2 * k + 1]) == f(front, f(values[2 * k], values[2 * k + 1]));
      }
    }
  }

  lemma FoldLast(f: Combiner, values: seq<u64>, x: u64)
    ensures LeftFold(f, values + [x]) == if values == [] then x else f(LeftFold(f, values), x)
  {
    assert (values + [x])[..|values|] == values;
  }

  /** Pairing up does not change the left-to-right fold. */
  lemma {:induction false} PairsKeepFold(f: Combiner, pad: u64, values: seq<u64>, k: nat)
    requires Associative(f) && Neutral(f, pad) && k + 1 == Up(|values|)
    ensures LeftFold(f, Pairs(f, pad, values, k + 1)) == LeftFold(f, values)
    decreases k
  {
    hide Up;
    LastPair(f, pad, values, k);
    FoldLast(f, Pairs(f, pad, values, k), PairAt(f, pad, values, k));
    if k > 0 {
      assert Up(|values[..2 * k]|) == k;
      PairsOfPrefix(f, pad, values, 2 * k, k);
      PairsKeepFold(f, pad, values[..2 * k], k - 1);
    }
  }

  lemma {:induction false} TreeFoldsLeft(f: Combiner, pad: u64, values: seq<u64>)
    requires Associative(f) && Neutral(f, pad) && values != []
    ensures TreeFold(f, pad, values) == LeftFold(f, values)
    decreases |values|
  {
    hide Up;
    if |values| > 1 {
      TreeFoldsLeft(f, pad, Pairs(f, pad, values, Up(|values|)));
      PairsKeepFold(f, pad, values, Up(|values|) - 1);
    }
  }

  /** For every operation but the hash the tree's shape does not matter: the fold is
      the plain left-to-right one. */
  lemma TreeFoldIsLeftFold(op: Operation, values: seq<u64>)
    requires op != HashFold && values != []
    ensures TreeFold(CombinerOf(op), Padding(op), values) == LeftFold(CombinerOf(op), values)
  {
    OperationLaws(op);
    TreeFoldsLeft(CombinerOf(op), Padding(op), values);
  }
}
