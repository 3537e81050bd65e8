/** Fold graphs as the interpreter receives them: the validator that every graph goes
    through, the builder with its own stricter check, and the interpreter itself
    (kernel/src/reduction/fold, kernel/src/reduction/graph). */
module FoldValidation {
  import opened Words
  import opened FoldGraph
  import opened FoldMeaning

  /** The last three fields are the source's `primitive_standardized`,
      `fixed_topological_order` and its two floating-point flags taken together. */
  datatype Graph = Graph(partitionCount: u32, foldSlots: seq<u32>, nodes: seq<Node>, edges: seq<Edge>, finalSlot: u32,
                         scratchSlots: u32, operation: Operation, standardized: bool, ordered: bool, floats: bool)

  /** Slots are 32-bit words, and so are the counts of edges and nodes. */
  predicate InWords(g: Graph) {
    && |g.edges| < TWO_32 && |g.nodes| < TWO_32
    && forall k :: 0 <= k < |g.edges| ==> EdgeInBounds(g.edges[k], TWO_32)
  }

  // ------------------------------------------------------------ what is acceptable

  ghost predicate ShapeOk(g: Graph) {
    g.standardized && !g.floats && g.ordered && g.partitionCount != 0 && |g.foldSlots| == g.partitionCount
  }

  /** One past the largest of the first k slots, or the start; one past the last word
      is zero. */
  function SlotsNeeded(start: u32, slots: seq<u32>, k: nat): (r: u32)
    requires k <= |slots|
    ensures start <= r && forall i :: 0 <= i < k ==> slots[i] == U32_MAX || slots[i] < r
  {
    if k == 0 then start else Max(SlotsNeeded(start, slots, k - 1), WrapAdd32(slots[k - 1], 1))
  }

  function EdgeNeeds(e: Edge): u32
    requires EdgeInBounds(e, TWO_32)
  {
    Max(Max(WrapAdd32(e.left, 1), WrapAdd32(e.right, 1)), WrapAdd32(e.output, 1))
  }

  function EdgesNeed(start: u32, edges: seq<Edge>, k: nat): (r: u32)
    requires k <= |edges| && forall i :: 0 <= i < |edges| ==> EdgeInBounds(edges[i], TWO_32)
    ensures start <= r
  {
    if k == 0 then start else Max(EdgesNeed(start, edges, k - 1), EdgeNeeds(edges[k - 1]))
  }

  function RequiredSlots(g: Graph): u32
    requires InWords(g)
  {
    var start := if g.scratchSlots == 0 then g.partitionCount else g.scratchSlots;
    EdgesNeed(SlotsNeeded(start, g.foldSlots, |g.foldSlots|), g.edges, |g.edges|)
  }

  ghost predicate SlotsOk(slots: seq<u32>, required: u32) {
    && (forall i :: 0 <= i < |slots| ==> slots[i] < required)
    && (forall i, j :: 0 <= i < j < |slots| ==> slots[i] != slots[j])
  }

  predicate IsFoldSlot(foldSlots: seq<u32>, slot: nat) {
    exists i :: 0 <= i < |foldSlots| && foldSlots[i] == slot
  }

  /** A partition value, or one of these edges, is put in this slot. */
  ghost predicate Written(foldSlots: seq<u32>, edges: seq<Edge>, slot: nat) {
    IsFoldSlot(foldSlots, slot) || (exists j :: 0 <= j < |edges| && edges[j].output == slot)
  }

  /** An edge after these: in order, in bounds, reading only slots already written and
      writing a new one, padded as the operation says. */
  ghost predicate EdgeOk(g: Graph, before: seq<Edge>, e: Edge, required: u32) {
    && e.operation == g.operation && (before != [] ==> before[|before| - 1].level <= e.level)
    && EdgeInBounds(e, required)
    && Written(g.foldSlots, before, e.left)
    && (!e.padded ==> Written(g.foldSlots, before, e.right))
    && !Written(g.foldSlots, before, e.output)
    && (if e.padded then e.law == LawOf(g.operation) && e.padding == Padding(g.operation) else e.law == NoPadding)
  }

  ghost predicate EdgesOk(g: Graph, required: u32, k: nat)
    requires k <= |g.edges|
  {
    forall j :: 0 <= j < k ==> EdgeOk(g, g.edges[..j], g.edges[j], required)
  }

  function LastSlot(g: Graph): nat
    requires g.foldSlots != []
  {
    if g.edges == [] then g.foldSlots[|g.foldSlots| - 1] else g.edges[|g.edges| - 1].output
  }

  predicate NodeMatches(n: Node, e: Edge) {
    && n.slot == e.output && n.left == e.left && n.right == e.right && n.operation == e.operation
    && n.law == e.law && n.padded == e.padded
  }

  predicate NodeHeaderOk(g: Graph, n: Node, i: nat, required: u32) {
    && n.index == i && n.slot < required && n.operation == g.operation
    && n.domain == DomainOf(g.operation) && n.overflow == OverflowOf(g.operation)
  }

  predicate NodePaddingOk(g: Graph, n: Node, required: u32) {
    n.padded ==> n.law == LawOf(g.operation) && n.right < required
  }

  /** A node describes a partition slot, or the edge that writes its slot. */
  ghost predicate NodeDescribes(g: Graph, n: Node) {
    if n.kind == Reduction
    then exists j :: 0 <= j < |g.edges| && NodeMatches(n, g.edges[j])
    else && IsFoldSlot(g.foldSlots, n.slot)
         && n.left == n.slot && n.right == n.slot && n.law == NoPadding && !n.padded
  }

  ghost predicate NodeOk(g: Graph, i: nat, required: u32)
    requires i < |g.nodes|
  {
    var n := g.nodes[i];
    NodeHeaderOk(g, n, i, required) && NodePaddingOk(g, n, required) && NodeDescribes(g, n)
  }

  ghost predicate NodesOk(g: Graph, required: u32) {
    forall i :: 0 <= i < |g.nodes| ==> NodeOk(g, i, required)
  }

  /** What the validator accepts within so many slots. */
  ghost predicate Acceptable(g: Graph, capacity: nat)
    requires InWords(g)
  {
    var required := RequiredSlots(g);
    && ShapeOk(g) && 0 < required <= capacity && SlotsOk(g.foldSlots, required)
    && EdgesOk(g, required, |g.edges|) && g.finalSlot == LastSlot(g) && NodesOk(g, required)
  }

  // ------------------------------------------------------- what is wrong with a graph

  /** What is wrong with a graph's shape, if anything is. */
  function ShapeFault(g: Graph): (r: Option<string>)
    ensures r.None? <==> ShapeOk(g)
  {
    if !g.standardized then Some("unsupported_fold_operation")
    else if g.floats then Some("floating_point_fold_forbidden")
    else if !g.ordered then Some("fold_graph_topological_order_required")
    else if g.partitionCount == 0 || |g.foldSlots| != g.partitionCount then Some("fold_graph_partition_mismatch")
    else None
  }

  /** What is wrong with an edge after these, if anything is. */
  ghost function EdgeFault(g: Graph, before: seq<Edge>, e: Edge, required: u32): (r: Option<string>)
    ensures r.None? <==> EdgeOk(g, before, e, required)
  {
    if e.operation != g.operation then Some("fold_graph_primitive_mismatch")
    else if before != [] && e.level < before[|before| - 1].level then Some("fold_graph_topological_order_required")
    else if !EdgeInBounds(e, required) then Some("fold_graph_edge_out_of_range")
    else if !Written(g.foldSlots, before, e.left) || (!e.padded && !Written(g.foldSlots, before, e.right)) then
      Some("fold_graph_edge_input_unavailable")
    else if Written(g.foldSlots, before, e.output) then Some("fold_graph_edge_output_redefined")
    else if EdgeOk(g, before, e, required) then None
    else Some("fold_graph_padding_law_mismatch")
  }

  /** The first edge that is not right has this fault. */
  ghost predicate FirstEdgeFault(g: Graph, required: u32, reason: string) {
    exists k :: 0 <= k < |g.edges| && EdgesOk(g, required, k)
                && EdgeFault(g, g.edges[..k], g.edges[k], required) == Some(reason)
  }

  /** What is wrong with a node, if anything is: a padded node has a reason of its own,
      unless its header is already wrong. */
  ghost function NodeFault(g: Graph, i: nat, required: u32): (r: Option<string>)
    requires i < |g.nodes|
    ensures r.None? <==> NodeOk(g, i, required)
  {
    if NodeOk(g, i, required) then None
    else if NodeHeaderOk(g, g.nodes[i], i, required) && !NodePaddingOk(g, g.nodes[i], required) then
      Some("fold_graph_padding_law_mismatch")
    else Some("fold_graph_node_mismatch")
  }

  ghost predicate FirstNodeFault(g: Graph, required: u32, reason: string) {
    exists i :: 0 <= i < |g.nodes| && (forall k :: 0 <= k < i ==> NodeOk(g, k, required))
                && NodeFault(g, i, required) == Some(reason)
  }

  /** The reason a graph is refused for: the first of these that applies. */
  ghost predicate RefusedFor(g: Graph, capacity: nat, reason: string)
    requires InWords(g)
  {
    var required := RequiredSlots(g);
    if !ShapeOk(g) then ShapeFault(g) == Some(reason)
    else if !(0 < required <= capacity) then reason == "fold_graph_scratch_capacity_exceeded"
    else if !SlotsOk(g.foldSlots, required) then reason == "fold_graph_slot_out_of_range"
    else if !EdgesOk(g, required, |g.edges|) then FirstEdgeFault(g, required, reason)
    else if g.finalSlot != LastSlot(g) then reason == "fold_graph_final_slot_mismatch"
    else FirstNodeFault(g, required, reason)
  }

  /** A graph is refused for one reason. */
  lemma OneReason(g: Graph, capacity: nat, a: string, b: string)
    requires InWords(g) && RefusedFor(g, capacity, a) && RefusedFor(g, capacity, b)
    ensures a == b
  {
    hide EdgeOk;
    hide EdgeFault;
    hide NodeOk;
    hide NodeFault;
  }

  // ---------------------------------------------------------------------- markers

  const PARTITION_MARKER: u64 := 0x4000_0000_0000_0000
  const EDGE_MARKER: u64 := 0x8000_0000_0000_0000

  /** What the validator has noted of a slot: who writes it, zero if nobody does yet. */
  function MarkerOf(foldSlots: seq<u32>, edges: seq<Edge>, slot: nat): (r: u64)
    requires |edges| < TWO_32
    ensures r < EDGE_MARKER + |edges|
  {
    if edges == [] then (if IsFoldSlot(foldSlots, slot) then PARTITION_MARKER else 0)
    else if edges[|edges| - 1].output == slot then EDGE_MARKER + |edges| - 1
    else MarkerOf(foldSlots, edges[..|edges| - 1], slot)
  }

  lemma {:induction false} MarkerMeans(foldSlots: seq<u32>, edges: seq<Edge>, slot: nat)
    requires |edges| < TWO_32
    ensures var m := MarkerOf(foldSlots, edges, slot);
            && (m == 0 <==> !Written(foldSlots, edges, slot))
            && (m != 0 && m != PARTITION_MARKER ==>
                  EDGE_MARKER <= m && m - EDGE_MARKER < |edges| && edges[m - EDGE_MARKER].output == slot)
            && (m == PARTITION_MARKER ==> IsFoldSlot(foldSlots, slot))
            && ((forall j :: 0 <= j < |edges| ==> edges[j].output != slot) ==> m == 0 || m == PARTITION_MARKER)
    decreases |edges|
  {
    if edges != [] {
      var before := edges[..|edges| - 1];
      MarkerMeans(foldSlots, before, slot);
      assert edges[|edges| - 1].output != slot ==>
          (Written(foldSlots, edges, slot) <==> Written(foldSlots, before, slot)) by {
        assert forall j :: 0 <= j < |before| ==> before[j] == edges[j];
      }
    }
  }

  /** The first `required` markers are those of these slots and edges. */
  ghost predicate Marked(markers: seq<u64>, required: nat, foldSlots: seq<u32>, edges: seq<Edge>)
    requires |edges| < TWO_32
  {
    required <= |markers| && forall i :: 0 <= i < required ==> markers[i] == MarkerOf(foldSlots, edges, i)
  }

  lemma MarkEdge(markers: seq<u64>, required: nat, foldSlots: seq<u32>, edges: seq<Edge>, e: Edge)
    requires |edges| + 1 < TWO_32 && Marked(markers, required, foldSlots, edges) && e.output < required
    ensures Marked(markers[e.output := EDGE_MARKER + |edges|], required, foldSlots, edges + [e])
  {
    assert (edges + [e])[..|edges|] == edges;
  }

  lemma MarkSlot(markers: seq<u64>, required: nat, foldSlots: seq<u32>, slot: u32)
    requires Marked(markers, required, foldSlots, []) && slot < required
    ensures Marked(markers[slot := PARTITION_MARKER], required, foldSlots + [slot], [])
  {
    var longer := foldSlots + [slot];
    assert longer[|foldSlots|] == slot;
    forall i: nat | i < required
      ensures IsFoldSlot(longer, i) <==> i == slot || IsFoldSlot(foldSlots, i)
    {
      assert forall k :: 0 <= k < |foldSlots| ==> longer[k] == foldSlots[k];
    }
  }

  // ------------------------------------------------------------------ the validator

  datatype Verdict = Rejected(reason: string) | Accepted(slots: u32, final: u32)

  method FoldGraphScratchSlotCount(g: Graph) returns (required: u32)
    requires InWords(g)
    ensures required == RequiredSlots(g)
  {
    required := if g.scratchSlots == 0 then g.partitionCount else g.scratchSlots;
    ghost var start := required;
    for i := 0 to |g.foldSlots|
      invariant required == SlotsNeeded(start, g.foldSlots, i)
    {
      required := Max(required, WrapAdd32(g.foldSlots[i], 1));
    }
    start := required;
    for i := 0 to |g.edges|
      invariant required == EdgesNeed(start, g.edges, i)
    {
      var edge := g.edges[i];
      required := Max(required, WrapAdd32(edge.left, 1));
      required := Max(required, WrapAdd32(edge.right, 1));
      required := Max(required, WrapAdd32(edge.output, 1));
    }
  }

  method ValidateFoldGraphShape(g: Graph) returns (failure: Option<string>)
    ensures failure == ShapeFault(g)
  {
    if !g.standardized {
      return Some("unsupported_fold_operation");
    }
    if g.floats {
      return Some("floating_point_fold_forbidden");
    }
    if !g.ordered {
      return Some("fold_graph_topological_order_required");
    }
    if g.partitionCount == 0 || |g.foldSlots| != g.partitionCount {
      return Some("fold_graph_partition_mismatch");
    }
    failure := None;
  }

  method ValidateFoldGraphSlots(g: Graph, markers: array<u64>, required: u32) returns (failure: Option<string>)
    requires |g.foldSlots| == g.partitionCount
    modifies markers
    ensures failure.None? <==> 0 < required <= markers.Length && SlotsOk(g.foldSlots, required)
    ensures failure.Some? ==>
              failure.value == if 0 < required <= markers.Length then "fold_graph_slot_out_of_range"
                               else "fold_graph_scratch_capacity_exceeded"
    ensures failure.None? ==> Marked(markers[..], required, g.foldSlots, [])
  {
    if required == 0 || markers.Length < required {
      return Some("fold_graph_scratch_capacity_exceeded");
    }
    for i := 0 to required
      invariant forall k :: 0 <= k < i ==> markers[k] == 0
    {
      markers[i] := 0;
    }
    for partition := 0 to g.partitionCount
      invariant SlotsOk(g.foldSlots[..partition], required)
      invariant Marked(markers[..], required, g.foldSlots[..partition], [])
    {
      var slot := g.foldSlots[partition];
      assert g.foldSlots[..partition + 1] == g.foldSlots[..partition] + [slot];
      if slot >= required || markers[slot] != 0 {
        SlotTaken(g.foldSlots, partition, required, markers[..]);
        return Some("fold_graph_slot_out_of_range");
      }
      MarkSlot(markers[..], required, g.foldSlots[..partition], slot);
      markers[slot] := PARTITION_MARKER;
    }
    assert g.foldSlots[..g.partitionCount] == g.foldSlots;
    failure := None;
  }

  lemma SlotTaken(slots: seq<u32>, k: nat, required: u32, markers: seq<u64>)
    requires k < |slots| && Marked(markers, required, slots[..k], [])
    requires slots[k] >= required || markers[slots[k]] != 0
    ensures !SlotsOk(slots, required)
  {
    if slots[k] < required {
      var i :| 0 <= i < k && slots[..k][i] == slots[k];
      assert slots[i] == slots[k];
    }
  }

  lemma MarkersTell(markers: seq<u64>, required: nat, foldSlots: seq<u32>, edges: seq<Edge>, slot: nat)
    requires |edges| < TWO_32 && Marked(markers, required, foldSlots, edges) && slot < required
    ensures markers[slot] == 0 <==> !Written(foldSlots, edges, slot)
  {
    MarkerMeans(foldSlots, edges, slot);
  }

  /** Why edge k is refused, if it is. */
  method CheckEdge(g: Graph, markers: array<u64>, k: nat, lastLevel: nat, required: u32)
    returns (failure: Option<string>)
    requires InWords(g) && k < |g.edges| && Marked(markers[..], required, g.foldSlots, g.edges[..k])
    requires k > 0 ==> lastLevel == g.edges[k - 1].level
    ensures failure == EdgeFault(g, g.edges[..k], g.edges[k], required)
  {
    var edge := g.edges[k];
    if edge.operation != g.operation {
      return Some("fold_graph_primitive_mismatch");
    }
    if k != 0 && edge.level < lastLevel {
      return Some("fold_graph_topological_order_required");
    }
    if edge.left >= required || edge.right >= required || edge.output >= required {
      return Some("fold_graph_edge_out_of_range");
    }
    MarkersTell(markers[..], required, g.foldSlots, g.edges[..k], edge.left);
    MarkersTell(markers[..], required, g.foldSlots, g.edges[..k], edge.right);
    MarkersTell(markers[..], required, g.foldSlots, g.edges[..k], edge.output);
    if markers[edge.left] == 0 || (!edge.padded && markers[edge.right] == 0) {
      return Some("fold_graph_edge_input_unavailable");
    }
    if markers[edge.output] != 0 {
      return Some("fold_graph_edge_output_redefined");
    }
    if edge.padded && (edge.law != LawOf(g.operation) || edge.padding != Padding(g.operation)) {
      return Some("fold_graph_padding_law_mismatch");
    }
    if !edge.padded && edge.law != NoPadding {
      return Some("fold_graph_padding_law_mismatch");
    }
    failure := None;
  }

  lemma EdgesUnmarked(g: Graph, markers: seq<u64>, required: u32)
    requires Marked(markers, required, g.foldSlots, [])
    ensures required <= |markers| && EdgesOk(g, required, 0) && g.edges[..0] == []
  {
  }

  lemma MarkNext(g: Graph, markers: seq<u64>, k: nat, required: u32)
    requires InWords(g) && k < |g.edges| && Marked(markers, required, g.foldSlots, g.edges[..k])
    requires EdgesOk(g, required, k) && EdgeOk(g, g.edges[..k], g.edges[k], required)
    ensures g.edges[k].output < required <= |markers| && EdgesOk(g, required, k + 1)
    ensures Marked(markers[g.edges[k].output := EDGE_MARKER + k], required, g.foldSlots, g.edges[..k + 1])
  {
    MarkEdge(markers, required, g.foldSlots, g.edges[..k], g.edges[k]);
    assert g.edges[..k + 1] == g.edges[..k] + [g.edges[k]];
  }

  method ValidateFoldGraphEdges(g: Graph, markers: array<u64>, required: u32)
    returns (failure: Option<string>, final: nat)
    requires InWords(g) && ShapeOk(g) && Marked(markers[..], required, g.foldSlots, [])
    modifies markers
    ensures failure.None? <==> EdgesOk(g, required, |g.edges|)
    ensures failure.Some? ==> FirstEdgeFault(g, required, failure.value)
    ensures failure.None? ==> final == LastSlot(g) && Marked(markers[..], required, g.foldSlots, g.edges)
  {
    hide MarkerOf;
    hide Marked;
    hide EdgeOk;
    hide EdgeFault;
    EdgesUnmarked(g, markers[..], required);
    var lastLevel: nat := 0;
    final := g.foldSlots[g.partitionCount - 1];
    for index := 0 to |g.edges|
      invariant required <= markers.Length
      invariant EdgesOk(g, required, index) && Marked(markers[..], required, g.foldSlots, g.edges[..index])
      invariant index > 0 ==> lastLevel == g.edges[index - 1].level
      invariant final == if index == 0 then g.foldSlots[|g.foldSlots| - 1] else g.edges[index - 1].output
    {
      var edge := g.edges[index];
      failure := CheckEdge(g, markers, index, lastLevel, required);
      if failure.Some? {
        return;
      }
      ghost var before := markers[..];
      MarkNext(g, before, index, required);
      lastLevel := edge.level;
      var mark: u64 := EDGE_MARKER + index;
      markers[edge.output] := mark;
      assert markers[..] == before[edge.output := mark];
      final := edge.output;
    }
    assert g.edges[..|g.edges|] == g.edges;
    failure := None;
  }

  lemma WrittenOnce(g: Graph, required: u32, i: nat, j: nat)
    requires EdgesOk(g, required, |g.edges|) && i < j < |g.edges|
    ensures g.edges[i].output != g.edges[j].output
  {
    assert EdgeOk(g, g.edges[..j], g.edges[j], required);
    assert g.edges[..j][i] == g.edges[i];
  }

  /** Edges that pass write different slots, none of them a partition's. */
  lemma OneWriter(g: Graph, required: u32, slot: nat, j: nat)
    requires EdgesOk(g, required, |g.edges|) && j < |g.edges| && g.edges[j].output == slot
    ensures !IsFoldSlot(g.foldSlots, slot)
    ensures forall i :: 0 <= i < |g.edges| && i != j ==> g.edges[i].output != slot
  {
    assert EdgeOk(g, g.edges[..j], g.edges[j], required);
    forall i | 0 <= i < |g.edges| && i != j
      ensures g.edges[i].output != slot
    {
      if i < j {
        WrittenOnce(g, required, i, j);
      } else {
        WrittenOnce(g, required, j, i);
      }
    }
  }

  lemma MarkerParts(m: u64)
    requires m == 0 || m == PARTITION_MARKER || EDGE_MARKER <= m < EDGE_MARKER + TWO_32
    ensures m / PARTITION_MARKER == if m == 0 then 0 else if m == PARTITION_MARKER then 1 else 2
    ensures EDGE_MARKER <= m ==> m % PARTITION_MARKER == m - EDGE_MARKER
  {
    if EDGE_MARKER <= m {
      DivUnique(m, PARTITION_MARKER, 2, m - EDGE_MARKER);
    }
  }

  /** A marker names the one writer of its slot. */
  lemma MarkerNames(g: Graph, markers: seq<u64>, required: u32, slot: nat)
    requires InWords(g) && EdgesOk(g, required, |g.edges|) && Marked(markers, required, g.foldSlots, g.edges)
    requires slot < required
    ensures markers[slot] == PARTITION_MARKER <==> IsFoldSlot(g.foldSlots, slot)
    ensures markers[slot] / PARTITION_MARKER != 2 ==> forall j :: 0 <= j < |g.edges| ==> g.edges[j].output != slot
    ensures markers[slot] / PARTITION_MARKER == 2 ==>
              var j := markers[slot] % PARTITION_MARKER; j < |g.edges| && g.edges[j].output == slot
  {
    hide EdgeOk;
    hide MarkerOf;
    hide IsFoldSlot;
    var m := markers[slot];
    MarkerMeans(g.foldSlots, g.edges, slot);
    MarkerParts(m);
    if EDGE_MARKER <= m {
      OneWriter(g, required, slot, m - EDGE_MARKER);
    }
    if IsFoldSlot(g.foldSlots, slot) || m == 0 {
      forall j | 0 <= j < |g.edges|
        ensures g.edges[j].output != slot
      {
        if g.edges[j].output == slot {
          assert Written(g.foldSlots, g.edges, slot);
          OneWriter(g, required, slot, j);
        }
      }
    }
  }

  /** What a node describes, told from the marker of its slot. */
  method CheckDescription(g: Graph, markers: array<u64>, node: Node, required: u32) returns (ok: bool)
    requires InWords(g) && EdgesOk(g, required, |g.edges|) && Marked(markers[..], required, g.foldSlots, g.edges)
    requires node.slot < required
    ensures ok <==> NodeDescribes(g, node)
  {
    hide EdgeOk;
    hide MarkerOf;
    hide Written;
    var marker := markers[node.slot];
    MarkerNames(g, markers[..], required, node.slot);
    match node.kind
    case Reduction =>
      if marker / PARTITION_MARKER != 2 {
        ok := false;
      } else {
        var index := marker % PARTITION_MARKER;
        ok := index < |g.edges| && NodeMatches(node, g.edges[index]);
        OneWriter(g, required, node.slot, index);
      }
    case _ =>
      ok := marker == PARTITION_MARKER && node.left == node.slot && node.right == node.slot
            && node.law == NoPadding && !node.padded;
  }

  /** Node i against the markers. */
  method CheckNode(g: Graph, markers: array<u64>, i: nat, required: u32) returns (failure: Option<string>)
    requires InWords(g) && EdgesOk(g, required, |g.edges|) && Marked(markers[..], required, g.foldSlots, g.edges)
    requires i < |g.nodes|
    ensures failure == NodeFault(g, i, required)
  {
    hide NodeDescribes;
    hide EdgeOk;
    hide MarkerOf;
    var node := g.nodes[i];
    if !NodeHeaderOk(g, node, i, required) {
      return Some("fold_graph_node_mismatch");
    }
    if !NodePaddingOk(g, node, required) {
      return Some("fold_graph_padding_law_mismatch");
    }
    var ok := CheckDescription(g, markers, node, required);
    failure := if ok then None else Some("fold_graph_node_mismatch");
  }

  method ValidateFoldGraphNodes(g: Graph, markers: array<u64>, required: u32) returns (failure: Option<string>)
    requires InWords(g) && EdgesOk(g, required, |g.edges|) && Marked(markers[..], required, g.foldSlots, g.edges)
    ensures failure.None? <==> NodesOk(g, required)
    ensures failure.Some? ==> FirstNodeFault(g, required, failure.value)
  {
    hide NodeOk;
    hide NodeFault;
    for i := 0 to |g.nodes|
      invariant forall k :: 0 <= k < i ==> NodeOk(g, k, required)
    {
      failure := CheckNode(g, markers, i, required);
      if failure.Some? {
        return;
      }
    }
    failure := None;
  }

  /** Accepts exactly the graphs whose edges read only what partitions or earlier edges
      have written, write each slot once, and whose nodes say the same; any other graph
      is refused for its first fault. */
  method ValidateFoldGraphWithMarkers(g: Graph, markers: array<u64>) returns (v: Verdict)
    requires InWords(g)
    modifies markers
    ensures v.Accepted? <==> Acceptable(g, markers.Length)
    ensures v.Accepted? ==> v.slots == RequiredSlots(g) && v.final == LastSlot(g)
    ensures v.Rejected? ==> RefusedFor(g, markers.Length, v.reason)
  {
    hide FirstEdgeFault;
    hide FirstNodeFault;
    hide EdgesOk;
    hide NodesOk;
    var failure := ValidateFoldGraphShape(g);
    if failure.Some? {
      return Rejected(failure.value);
    }
    var required := FoldGraphScratchSlotCount(g);
    failure := ValidateFoldGraphSlots(g, markers, required);
    if failure.Some? {
      return Rejected(failure.value);
    }
    var final;
    failure, final := ValidateFoldGraphEdges(g, markers, required);
    if failure.Some? {
      return Rejected(failure.value);
    }
    if g.finalSlot != final {
      return Rejected("fold_graph_final_slot_mismatch");
    }
    failure := ValidateFoldGraphNodes(g, markers, required);
    if failure.Some? {
      return Rejected(failure.value);
    }
    v := Accepted(required, final);
  }

  // ---------------------------------------------------------- what acceptance means

  /** Two runs agree on every slot that has been written. */
  ghost predicate AgreeOn(foldSlots: seq<u32>, edges: seq<Edge>, a: seq<u64>, b: seq<u64>, required: u32) {
    && required <= |a| && required <= |b|
    && forall slot: nat :: slot < required && Written(foldSlots, edges, slot) ==> a[slot] == b[slot]
  }

  lemma {:induction false} PlacedAgree(foldSlots: seq<u32>, values: seq<u64>, a: seq<u64>, b: seq<u64>, k: nat)
    requires k <= |foldSlots| && k <= |values|
    requires forall i :: 0 <= i < |foldSlots| ==> foldSlots[i] < |a| && foldSlots[i] < |b|
    ensures forall i :: 0 <= i < k ==>
                          Placed(a, foldSlots, values, k)[foldSlots[i]] == Placed(b, foldSlots, values, k)[foldSlots[i]]
  {
    if k > 0 {
      PlacedAgree(foldSlots, values, a, b, k - 1);
    }
  }

  lemma EdgeAgrees(g: Graph, f: Combiner, before: seq<Edge>, e: Edge, a: seq<u64>, b: seq<u64>, required: u32)
    requires AgreeOn(g.foldSlots, before, a, b, required) && EdgeOk(g, before, e, required)
    ensures AgreeOn(g.foldSlots, before + [e], RunEdge(f, a, e), RunEdge(f, b, e), required)
  {
    forall slot: nat | slot < required && Written(g.foldSlots, before + [e], slot) && slot != e.output
      ensures Written(g.foldSlots, before, slot)
    {
      if !IsFoldSlot(g.foldSlots, slot) {
        var j :| 0 <= j < |before + [e]| && (before + [e])[j].output == slot;
        assert before[j].output == slot;
      }
    }
  }

  lemma {:induction false} RunsAgree(g: Graph, f: Combiner, a: seq<u64>, b: seq<u64>, required: u32, k: nat)
    requires k <= |g.edges| && EdgesOk(g, required, k) && AgreeOn(g.foldSlots, [], a, b, required)
    ensures AgreeOn(g.foldSlots, g.edges[..k], RunEdges(f, a, g.edges[..k]), RunEdges(f, b, g.edges[..k]), required)
  {
    hide AgreeOn;
    hide RunEdge;
    hide EdgeOk;
    if k > 0 {
      RunsAgree(g, f, a, b, required, k - 1);
      var before, e := g.edges[..k - 1], g.edges[k - 1];
      assert g.edges[..k] == before + [e];
      RunLast(f, a, before, e);
      RunLast(f, b, before, e);
      EdgeAgrees(g, f, before, e, RunEdges(f, a, before), RunEdges(f, b, before), required);
    }
  }

  lemma LastIsWritten(g: Graph, required: u32)
    requires g.foldSlots != [] && SlotsOk(g.foldSlots, required) && EdgesOk(g, required, |g.edges|)
    ensures LastSlot(g) < required && Written(g.foldSlots, g.edges, LastSlot(g))
  {
    if g.edges != [] {
      var last := |g.edges| - 1;
      assert EdgeOk(g, g.edges[..last], g.edges[last], required);
    }
  }

  lemma SlotsInside(foldSlots: seq<u32>, required: u32)
    requires SlotsOk(foldSlots, required)
    ensures forall i :: 0 <= i < |foldSlots| ==> foldSlots[i] < required
  {
  }

  lemma AllPlacedAgree(foldSlots: seq<u32>, values: seq<u64>, a: seq<u64>, b: seq<u64>, required: u32)
    requires required <= |a| && required <= |b| && |values| == |foldSlots| && SlotsOk(foldSlots, required)
    ensures AgreeOn(foldSlots, [], Placed(a, foldSlots, values, |values|), Placed(b, foldSlots, values, |values|),
                    required)
  {
    hide Placed;
    hide SlotsOk;
    hide Written;
    SlotsInside(foldSlots, required);
    PlacedAgree(foldSlots, values, a, b, |values|);
    var p, q := Placed(a, foldSlots, values, |values|), Placed(b, foldSlots, values, |values|);
    forall slot: nat | slot < required && Written(foldSlots, [], slot)
      ensures p[slot] == q[slot]
    {
      var i := PartitionOfSlot(foldSlots, slot);
      assert p[foldSlots[i]] == q[foldSlots[i]];
    }
  }

  lemma PartitionOfSlot(foldSlots: seq<u32>, slot: nat) returns (i: nat)
    requires Written(foldSlots, [], slot)
    ensures i < |foldSlots| && foldSlots[i] == slot
  {
    i :| 0 <= i < |foldSlots| && foldSlots[i] == slot;
  }

  lemma AllRunsAgree(g: Graph, f: Combiner, a: seq<u64>, b: seq<u64>, required: u32)
    requires EdgesOk(g, required, |g.edges|) && AgreeOn(g.foldSlots, [], a, b, required)
    ensures AgreeOn(g.foldSlots, g.edges, RunEdges(f, a, g.edges), RunEdges(f, b, g.edges), required)
  {
    hide EdgeOk;
    RunsAgree(g, f, a, b, required, |g.edges|);
    assert g.edges[..|g.edges|] == g.edges;
  }

  /** The fold of an accepted graph is a function of the partition values alone: no slot
      is read before it has been written, so what the scratch is filled with, and held
      before that, makes no difference. */
  lemma FoldIgnoresFill(g: Graph, f: Combiner, values: seq<u64>, a: seq<u64>, b: seq<u64>)
    requires InWords(g) && Acceptable(g, |a|) && Acceptable(g, |b|) && |values| == g.partitionCount
    ensures LastSlot(g) < |a| && LastSlot(g) < |b|
    ensures RunEdges(f, Placed(a, g.foldSlots, values, |values|), g.edges)[LastSlot(g)]
         == RunEdges(f, Placed(b, g.foldSlots, values, |values|), g.edges)[LastSlot(g)]
  {
    hide Placed;
    hide RunEdges;
    hide EdgeOk;
    hide Written;
    hide RequiredSlots;
    AllPlacedAgree(g.foldSlots, values, a, b, RequiredSlots(g));
    AllRunsAgree(g, f, Placed(a, g.foldSlots, values, |values|), Placed(b, g.foldSlots, values, |values|),
                 RequiredSlots(g));
    LastIsWritten(g, RequiredSlots(g));
  }

  // ---------------------------------------------------------------- the interpreter

  datatype FoldResult = Failed(reason: string) | Folded(value: u64)

  method Fill(scratch: array<u64>, value: u64)
    modifies scratch
    ensures scratch[..] == seq(scratch.Length, _ => value)
  {
    for i := 0 to scratch.Length
      invariant forall k :: 0 <= k < i ==> scratch[k] == value
    {
      scratch[i] := value;
    }
  }

  method PlaceValues(g: Graph, values: seq<u64>, scratch: array<u64>, required: u32) returns (ok: bool)
    requires |values| == g.partitionCount == |g.foldSlots| && required <= scratch.Length
    requires SlotsOk(g.foldSlots, required)
    modifies scratch
    ensures ok && scratch[..] == Placed(old(scratch[..]), g.foldSlots, values, |values|)
  {
    ok := true;
    for partition := 0 to g.partitionCount
      invariant ok && scratch[..] == Placed(old(scratch[..]), g.foldSlots, values, partition)
    {
      var slot := g.foldSlots[partition];
      ok := slot < required;
      if !ok {
        return;
      }
      scratch[slot] := values[partition];
    }
  }

  method RunGraph(g: Graph, scratch: array<u64>, first: nat) returns (final: nat)
    requires AllInBounds(g.edges, scratch.Length) && first < scratch.Length
    modifies scratch
    ensures scratch[..] == RunEdges(CombinerOf(g.operation), old(scratch[..]), g.edges)
    ensures final == if g.edges == [] then first else g.edges[|g.edges| - 1].output
    ensures final < scratch.Length
  {
    final := first;
    for index := 0 to |g.edges|
      invariant scratch[..] == RunEdges(CombinerOf(g.operation), old(scratch[..]), g.edges[..index])
      invariant final == if index == 0 then first else g.edges[index - 1].output
      invariant final < scratch.Length
    {
      var edge := g.edges[index];
      assert EdgeInBounds(edge, scratch.Length) && g.edges[..index + 1][..index] == g.edges[..index];
      var right := if edge.padded then edge.padding else scratch[edge.right];
      scratch[edge.output] := Combine(g.operation, scratch[edge.left], right);
      final := edge.output;
    }
    assert g.edges[..|g.edges|] == g.edges;
  }

  lemma AcceptedInBounds(g: Graph, capacity: nat)
    requires InWords(g) && Acceptable(g, capacity)
    ensures AllInBounds(g.edges, capacity) && LastSlot(g) < capacity
  {
    LastIsWritten(g, RequiredSlots(g));
    forall j | 0 <= j < |g.edges|
      ensures EdgeInBounds(g.edges[j], capacity)
    {
      assert EdgeOk(g, g.edges[..j], g.edges[j], RequiredSlots(g));
    }
  }

  /** Folds exactly the graphs the validator accepts in this scratch. */
  method FoldGraphReduce(g: Graph, values: seq<u64>, scratch: array<u64>) returns (r: FoldResult)
    requires InWords(g)
    modifies scratch
    ensures |values| != g.partitionCount ==>
              r == Failed("fold_graph_partition_mismatch") && scratch[..] == old(scratch[..])
    ensures r.Folded? <==> |values| == g.partitionCount && Acceptable(g, scratch.Length)
    ensures r.Failed? && |values| == g.partitionCount ==> RefusedFor(g, scratch.Length, r.reason)
    ensures r.Folded? ==>
              var start := Placed(seq(scratch.Length, _ => Identity(g.operation)), g.foldSlots, values, |values|);
              && scratch[..] == RunEdges(CombinerOf(g.operation), start, g.edges)
              && LastSlot(g) < scratch.Length && r == Folded(scratch[LastSlot(g)])
  {
    if |values| != g.partitionCount {
      return Failed("fold_graph_partition_mismatch");
    }
    var validation := ValidateFoldGraphWithMarkers(g, scratch);
    if validation.Rejected? {
      return Failed(validation.reason);
    }
    if scratch.Length < validation.slots {
      return Failed("fold_graph_scratch_capacity_exceeded");
    }
    AcceptedInBounds(g, scratch.Length);
    Fill(scratch, Identity(g.operation));
    var ok := PlaceValues(g, values, scratch, validation.slots);
    if !ok {
      return Failed("fold_graph_slot_out_of_range");
    }
    var final := RunGraph(g, scratch, validation.final);
    r := Folded(scratch[final]);
  }

  // ------------------------------------------------------------ the built graph

  function PartitionNode(op: Operation, i: nat): Node {
    Node(if i % 2 == 0 then WorkerLocalPartial else GlobalOrderedSlot, i, i / 2, i / 2, i / 2, op, DomainOf(op),
         NoPadding, OverflowOf(op), false)
  }

  function PartitionNodes(op: Operation, n: nat): (r: seq<Node>)
    ensures |r| == 2 * n
  {
    seq(2 * n, i requires 0 <= i => PartitionNode(op, i))
  }

  function FirstSlots(n: u32): (r: seq<u32>)
    ensures |r| == n && forall k :: 0 <= k < n ==> r[k] == k
  {
    seq(n, k requires 0 <= k < n => k)
  }

  ghost function TreeGraph(n: u32, op: Operation): Graph
    requires n >= 1 && n + TreeEdges(n) <= U32_MAX
  {
    var edges := EdgesAbove(op, 0, 0, n, n);
    Graph(n, FirstSlots(n), PartitionNodes(op, n) + EdgeNodes(edges, 2 * n), edges, n + TreeEdges(n) - 1,
          n + TreeEdges(n), op, true, true, false)
  }

  method AppendPartitionSlots(n: u32, op: Operation) returns (slots: seq<u32>, nodes: seq<Node>)
    ensures slots == FirstSlots(n) && nodes == PartitionNodes(op, n)
  {
    slots, nodes := [], [];
    for partition := 0 to n
      invariant slots == FirstSlots(partition) && nodes == PartitionNodes(op, partition)
    {
      var slot: u32 := partition;
      slots := slots + [slot];
      nodes := nodes + [Node(WorkerLocalPartial, |nodes|, slot, slot, slot, op, DomainOf(op), NoPadding,
                             OverflowOf(op), false)];
      nodes := nodes + [Node(GlobalOrderedSlot, |nodes|, slot, slot, slot, op, DomainOf(op), NoPadding,
                             OverflowOf(op), false)];
    }
  }

  // The builder's own check, against the same recurrence.

  predicate BuiltPartitionOk(g: Graph, op: Operation, partition: nat)
    requires partition < |g.foldSlots| && 2 * partition + 1 < |g.nodes|
  {
    var worker, ordered := g.nodes[2 * partition], g.nodes[2 * partition + 1];
    && g.foldSlots[partition] == partition
    && worker.kind == WorkerLocalPartial && ordered.kind == GlobalOrderedSlot
    && worker.index == 2 * partition && ordered.index == 2 * partition + 1
    && worker.slot == partition && ordered.slot == partition
    && worker.operation == op && ordered.operation == op
    && worker.domain == DomainOf(op) && ordered.domain == DomainOf(op)
    && worker.overflow == OverflowOf(op) && ordered.overflow == OverflowOf(op)
  }

  /** The edge is that of the tree; what an unpadded edge would pad with is not looked at. */
  predicate SameEdge(e: Edge, x: Edge) {
    e == x.(padding := e.padding) && (e.padded ==> e.padding == x.padding)
  }

  predicate BuiltEdgeOk(g: Graph, x: Edge, first: nat, t: nat)
    requires t < |g.edges| && first + t < |g.nodes|
  {
    SameEdge(g.edges[t], x) && g.nodes[first + t] == EdgeNode(g.edges[t], first + t)
  }

  predicate BuiltShapeOk(g: Graph, n: u32, nodes: u32, edges: u32, slots: u32) {
    && g.standardized && g.partitionCount == n && |g.foldSlots| == n && |g.nodes| == nodes && |g.edges| == edges
    && g.scratchSlots == slots
  }

  /** Sizes as counted, partitions in order, edges and nodes those of the tree. */
  ghost predicate BuiltOk(g: Graph, n: u32, op: Operation)
    requires n >= 1 && 2 * n + TreeEdges(n) <= U32_MAX
  {
    && BuiltShapeOk(g, n, 2 * n + TreeEdges(n), TreeEdges(n), n + TreeEdges(n))
    && (forall p :: 0 <= p < n ==> BuiltPartitionOk(g, op, p))
    && (forall t :: 0 <= t < TreeEdges(n) ==> BuiltEdgeOk(g, EdgesAbove(op, 0, 0, n, n)[t], 2 * n, t))
    && g.finalSlot == n + TreeEdges(n) - 1
  }

  lemma {:induction false} LevelEdgeAt(op: Operation, level: nat, base: nat, active: nat, output: nat, count: nat,
                                       k: nat)
    requires k < count
    ensures LevelEdges(op, level, base, active, output, count)[k] == PairEdge(op, level, base, active, output, k)
  {
    if k < count - 1 {
      LevelEdgeAt(op, level, base, active, output, count - 1, k);
    }
  }

  /** The edges of one level, from `index` on, against the tree. */
  method CheckLevel(g: Graph, op: Operation, first: u32, index: u32, level: u32, base: u32, active: u32, output: u32,
                    ghost tree: seq<Edge>)
    returns (ok: bool)
    requires active > 1 && base + active <= output && output + Up(active) <= g.scratchSlots
    requires |g.edges| == |tree| && |g.nodes| == first + |tree| && index + Up(active) <= |tree|
    requires first + |tree| <= U32_MAX
    requires forall k :: 0 <= k < Up(active) ==> tree[index + k] == PairEdge(op, level, base, active, output, k)
    ensures ok <==> forall t :: index <= t < index + Up(active) ==> BuiltEdgeOk(g, tree[t], first, t)
  {
    hide Up;
    var pair: u32 := 0;
    ghost var k: nat := 0;
    while pair < active
      invariant pair == 2 * k && k <= Up(active)
      invariant forall t :: index <= t < index + k ==> BuiltEdgeOk(g, tree[t], first, t)
    {
      var at: u32 := index + pair / 2;
      var hasRight := pair + 1 < active;
      var left: u32, target: u32 := base + pair, output + pair / 2;
      var right: u32 := if hasRight then base + pair + 1 else base + pair;
      assert tree[at] == PairEdge(op, level, base, active, output, k);
      ok := at < |g.edges| && left < g.scratchSlots && right < g.scratchSlots && target < g.scratchSlots;
      if ok {
        var edge, node := g.edges[at], g.nodes[first + at];
        ok := && edge.level == level && edge.left == left && edge.right == right && edge.output == target
              && edge.operation == op && edge.padded != hasRight
              && (hasRight ==> edge.law == NoPadding)
              && (!hasRight ==> edge.law == LawOf(op) && edge.padding == Padding(op))
              && node == Node(Reduction, first + at, edge.output, edge.left, edge.right, op, DomainOf(op), edge.law,
                              OverflowOf(op), edge.padded);
      }
      if !ok {
        assert !BuiltEdgeOk(g, tree[at], first, at);
        return;
      }
      pair, k := pair + 2, k + 1;
    }
    ok := true;
  }

  lemma RowOfTree(op: Operation, level: nat, base: nat, active: nat, output: nat, half: nat, tree: seq<Edge>,
                  index: nat)
    requires active > 1 && half == Up(active) && index <= |tree|
    requires tree[index..] == EdgesAbove(op, level, base, active, output)
    ensures index + half <= |tree| && tree[index + half..] == EdgesAbove(op, level + 1, output, half, output + half)
    ensures forall k :: 0 <= k < half ==> tree[index + k] == PairEdge(op, level, base, active, output, k)
  {
    EdgesSplit(op, level, base, active, output, half);
    var row := LevelEdges(op, level, base, active, output, half);
    assert tree[index..][half..] == tree[index + half..];
    forall k | 0 <= k < half
      ensures tree[index + k] == PairEdge(op, level, base, active, output, k)
    {
      LevelEdgeAt(op, level, base, active, output, half, k);
      assert tree[index..][k] == row[k];
    }
  }

  method CheckReductionEdges(g: Graph, n: u32, op: Operation) returns (ok: bool)
    requires n >= 1 && 2 * n + TreeEdges(n) <= U32_MAX
    requires BuiltShapeOk(g, n, 2 * n + TreeEdges(n), TreeEdges(n), n + TreeEdges(n))
    ensures ok <==> && (forall t :: 0 <= t < TreeEdges(n) ==> BuiltEdgeOk(g, EdgesAbove(op, 0, 0, n, n)[t], 2 * n, t))
                    && g.finalSlot == n + TreeEdges(n) - 1
  {
    hide Up;
    hide EdgesAbove;
    hide Levels;
    hide BuiltEdgeOk;
    FewLevels(n);
    ghost var tree := EdgesAbove(op, 0, 0, n, n);
    ghost var edgesLeft, levelsLeft := TreeEdges(n), Levels(n);
    var index: u32, level: u32, base: u32, active: u32, output: u32, final: u32 := 0, 0, 0, n, n, n - 1;
    while active > 1
      invariant Remaining(active, edgesLeft, levelsLeft) && 1 <= active
      invariant base + active <= output && output + edgesLeft == n + |tree| && level + levelsLeft <= 32
      invariant index + edgesLeft == |tree| == TreeEdges(n) && final == output - 1
      invariant tree[index..] == EdgesAbove(op, level, base, active, output)
      invariant forall t :: 0 <= t < index ==> BuiltEdgeOk(g, tree[t], 2 * n, t)
      decreases active
    {
      LevelUses(active, edgesLeft, levelsLeft);
      HalfIsUp(active);
      var half: u32 := (active + 1) / 2;
      RowOfTree(op, level, base, active, output, half, tree, index);
      ok := CheckLevel(g, op, 2 * n, index, level, base, active, output, tree);
      if !ok {
        return;
      }
      final := output + half - 1;
      edgesLeft, levelsLeft := edgesLeft - half, levelsLeft - 1;
      index, base, output, active, level := index + half, output, output + half, half, level + 1;
    }
    ok := index == |g.edges| && g.finalSlot == final;
  }

  method ValidateBuiltFixedBinaryTreeGraph(g: Graph, n: u32, op: Operation, nodes: u32, edges: u32, slots: u32)
    returns (ok: bool)
    requires n >= 1 && nodes == 2 * n + TreeEdges(n) && edges == TreeEdges(n) && slots == n + TreeEdges(n)
    ensures ok <==> BuiltOk(g, n, op)
  {
    hide TreeEdges;
    hide EdgesAbove;
    hide BuiltPartitionOk;
    hide BuiltEdgeOk;
    if !BuiltShapeOk(g, n, nodes, edges, slots) {
      return false;
    }
    for partition := 0 to n
      invariant forall p :: 0 <= p < partition ==> BuiltPartitionOk(g, op, p)
    {
      if !BuiltPartitionOk(g, op, partition) {
        return false;
      }
    }
    ok := CheckReductionEdges(g, n, op);
    assert BuiltShapeOk(g, n, 2 * n + TreeEdges(n), TreeEdges(n), n + TreeEdges(n));
    assert ok ==> forall t :: 0 <= t < TreeEdges(n) ==> BuiltEdgeOk(g, EdgesAbove(op, 0, 0, n, n)[t], 2 * n, t);
    assert ok ==> BuiltOk(g, n, op);
  }

  datatype Build = Refused(reason: string) | Built(graph: Graph)

  /** How much each of the graph's three buffers holds, when they may not grow. */
  datatype Room = Growing | NoGrowth(foldSlots: nat, nodes: nat, edges: nat)

  /** Refused exactly for zero partitions, for counts that do not fit, and for buffers
      too small; the check after building never fails. */
  method BuildFoldGraph(n: u32, op: Operation, room: Room) returns (b: Build)
    ensures n == 0 ==> b == Refused("invalid_partition_count")
    ensures b.Built? <==>
              && n >= 1 && 2 * n + TreeEdges(n) <= U32_MAX
              && (room.NoGrowth? ==> n <= room.foldSlots && 2 * n + TreeEdges(n) <= room.nodes
                                     && TreeEdges(n) <= room.edges)
    ensures b.Refused? && n != 0 ==> b.reason == "fold_graph_capacity_exceeded"
    ensures b.Built? ==> b.graph == TreeGraph(n, op)
  {
    hide TreeEdges;
    hide EdgesAbove;
    hide EdgeNodes;
    hide PartitionNodes;
    hide FirstSlots;
    if n == 0 {
      return Refused("invalid_partition_count");
    }
    NodeCountMeans(n);
    var nodesNeeded, edgesNeeded := NodeCount(n), EdgeCount(n);
    var slotsNeeded := WrapAdd32(n, edgesNeeded);
    if nodesNeeded == 0 {
      return Refused("fold_graph_capacity_exceeded");
    }
    SmallCountIsExact(n);
    if slotsNeeded == 0 || (room.NoGrowth? && (room.foldSlots < n || room.nodes < nodesNeeded
                                               || room.edges < edgesNeeded)) {
      return Refused("fold_graph_capacity_exceeded");
    }
    var slots, nodes := AppendPartitionSlots(n, op);
    var edges := new Edge[edgesNeeded](_ => Edge(0, 0, 0, 0, op, NoPadding, false, 0));
    var final;
    final, nodes := AppendReductionTree(edges, nodes, n, op);
    var graph := Graph(n, slots, nodes, edges[..], final, slotsNeeded, op, true, true, false);
    TreeIsBuilt(n, op);
    var ok := ValidateBuiltFixedBinaryTreeGraph(graph, n, op, nodesNeeded, edgesNeeded, slotsNeeded);
    if !ok {
      return Refused("fold_graph_validation_failed");
    }
    b := Built(graph);
  }

  lemma TreeIsBuilt(n: u32, op: Operation)
    requires n >= 1 && 2 * n + TreeEdges(n) <= U32_MAX
    ensures BuiltOk(TreeGraph(n, op), n, op)
  {
    hide TreeEdges;
    hide EdgesAbove;
    var g, edges := TreeGraph(n, op), EdgesAbove(op, 0, 0, n, n);
    forall p | 0 <= p < n
      ensures BuiltPartitionOk(g, op, p)
    {
      assert g.nodes[2 * p] == PartitionNode(op, 2 * p) && g.nodes[2 * p + 1] == PartitionNode(op, 2 * p + 1);
    }
    forall t | 0 <= t < TreeEdges(n)
      ensures BuiltEdgeOk(g, edges[t], 2 * n, t)
    {
      assert g.nodes[2 * n + t] == EdgeNodes(edges, 2 * n)[t];
    }
  }

  // ------------------------------------------- the general validator accepts it too

  /** Edge t of the tree writes slot `output + t` from slots below it. */
  ghost predicate TreeEdgeOk(op: Operation, level: nat, output: nat, e: Edge) {
    && e.output == output && e.left < output && e.right < output && e.operation == op && level <= e.level
    && (if e.padded then e.law == LawOf(op) && e.padding == Padding(op) else e.law == NoPadding)
  }

  lemma {:induction false} TreeEdgeAt(op: Operation, level: nat, base: nat, active: nat, output: nat, t: nat)
    requires base + active <= output && t < TreeEdges(active)
    ensures TreeEdgeOk(op, level, output + t, EdgesAbove(op, level, base, active, output)[t])
    decreases active
  {
    hide Up;
    hide TreeEdges;
    hide EdgesAbove;
    hide LevelEdges;
    SomeEdges(active);
    var half := Up(active);
    EdgesSplit(op, level, base, active, output, half);
    if t < half {
      LevelEdgeAt(op, level, base, active, output, half, t);
    } else {
      TreeEdgeAt(op, level + 1, output, half, output + half, t - half);
    }
  }

  lemma SomeEdges(active: nat)
    requires TreeEdges(active) > 0
    ensures active > 1 && 1 <= Up(active) < active
  {
  }

  lemma {:induction false} TreeLevelsRise(op: Operation, level: nat, base: nat, active: nat, output: nat, t: nat)
    requires base + active <= output && t + 1 < TreeEdges(active)
    ensures var edges := EdgesAbove(op, level, base, active, output); edges[t].level <= edges[t + 1].level
    decreases active
  {
    hide Up;
    hide TreeEdges;
    hide EdgesAbove;
    hide LevelEdges;
    SomeEdges(active);
    var half := Up(active);
    EdgesSplit(op, level, base, active, output, half);
    if t < half {
      LevelEdgeAt(op, level, base, active, output, half, t);
      TreeEdgeAt(op, level, base, active, output, t + 1);
    } else {
      TreeLevelsRise(op, level + 1, output, half, output + half, t - half);
    }
  }

  lemma FirstSlotsWritten(n: u32, slot: nat)
    ensures IsFoldSlot(FirstSlots(n), slot) <==> slot < n
  {
    if slot < n {
      assert FirstSlots(n)[slot] == slot;
    }
  }

  /** Before edge t exactly the slots below n + t have been written. */
  lemma TreeWritten(n: u32, op: Operation, t: nat, slot: nat)
    requires n >= 1 && n + TreeEdges(n) <= U32_MAX && t <= TreeEdges(n)
    ensures Written(FirstSlots(n), EdgesAbove(op, 0, 0, n, n)[..t], slot) <==> slot < n + t
  {
    var edges := EdgesAbove(op, 0, 0, n, n);
    FirstSlotsWritten(n, slot);
    if n <= slot < n + t {
      TreeEdgeAt(op, 0, 0, n, n, slot - n);
      assert edges[..t][slot - n].output == slot;
    }
    forall j | 0 <= j < t
      ensures edges[..t][j].output == n + j
    {
      TreeEdgeAt(op, 0, 0, n, n, j);
    }
  }

  lemma TreeEdgeAccepted(n: u32, op: Operation, t: nat)
    requires n >= 1 && n + TreeEdges(n) <= U32_MAX && t < TreeEdges(n)
    ensures var g := TreeGraph(n, op); EdgeOk(g, g.edges[..t], g.edges[t], n + TreeEdges(n))
  {
    hide TreeEdges;
    hide EdgesAbove;
    hide Written;
    var g := TreeGraph(n, op);
    TreeEdgeAt(op, 0, 0, n, n, t);
    TreeWritten(n, op, t, g.edges[t].left);
    TreeWritten(n, op, t, g.edges[t].right);
    TreeWritten(n, op, t, g.edges[t].output);
    if t > 0 {
      TreeLevelsRise(op, 0, 0, n, n, t - 1);
    }
  }

  lemma {:induction false} FirstSlotsNeeded(n: u32, start: u32, k: nat)
    requires k <= n <= start
    ensures SlotsNeeded(start, FirstSlots(n), k) == start
  {
    if k > 0 {
      FirstSlotsNeeded(n, start, k - 1);
    }
  }

  lemma {:induction false} EdgesNeedNoMore(start: u32, edges: seq<Edge>, k: nat)
    requires k <= |edges| && forall i :: 0 <= i < |edges| ==> EdgeInBounds(edges[i], start)
    requires forall i :: 0 <= i < |edges| ==> EdgeInBounds(edges[i], TWO_32)
    ensures EdgesNeed(start, edges, k) == start
  {
    if k > 0 {
      EdgesNeedNoMore(start, edges, k - 1);
    }
  }

  lemma TreeNodeAccepted(n: u32, op: Operation, i: nat)
    requires n >= 1 && n + TreeEdges(n) <= U32_MAX && i < 2 * n + TreeEdges(n)
    ensures NodeOk(TreeGraph(n, op), i, n + TreeEdges(n))
  {
    hide TreeEdges;
    hide EdgesAbove;
    var g := TreeGraph(n, op);
    if i < 2 * n {
      assert g.nodes[i] == PartitionNode(op, i);
      FirstSlotsWritten(n, i / 2);
    } else {
      var t := i - 2 * n;
      assert g.nodes[i] == EdgeNode(g.edges[t], i);
      TreeEdgeAt(op, 0, 0, n, n, t);
      assert NodeMatches(g.nodes[i], g.edges[t]);
    }
  }

  lemma TreeInWords(n: u32, op: Operation)
    requires n >= 1 && 2 * n + TreeEdges(n) <= U32_MAX
    ensures var g := TreeGraph(n, op);
            && InWords(g) && RequiredSlots(g) == n + TreeEdges(n) && LastSlot(g) == n + TreeEdges(n) - 1
  {
    hide TreeEdges;
    hide EdgesAbove;
    hide EdgesNeed;
    hide SlotsNeeded;
    hide EdgeNodes;
    hide PartitionNodes;
    var g := TreeGraph(n, op);
    forall t | 0 <= t < |g.edges|
      ensures EdgeInBounds(g.edges[t], n + TreeEdges(n)) && g.edges[t].output == n + t
    {
      TreeEdgeAt(op, 0, 0, n, n, t);
    }
    FirstSlotsNeeded(n, n + TreeEdges(n), n);
    EdgesNeedNoMore(n + TreeEdges(n), g.edges, |g.edges|);
  }

  /** The validator accepts every generated tree, given scratch for its slots. */
  lemma TreeAccepted(n: u32, op: Operation, capacity: nat)
    requires n >= 1 && 2 * n + TreeEdges(n) <= U32_MAX
    ensures InWords(TreeGraph(n, op))
    ensures Acceptable(TreeGraph(n, op), capacity) <==> n + TreeEdges(n) <= capacity
  {
    hide TreeEdges;
    hide EdgesAbove;
    hide EdgeOk;
    hide NodeOk;
    hide RequiredSlots;
    var g, required: u32 := TreeGraph(n, op), n + TreeEdges(n);
    TreeInWords(n, op);
    forall t | 0 <= t < |g.edges|
      ensures EdgeOk(g, g.edges[..t], g.edges[t], required)
    {
      TreeEdgeAccepted(n, op, t);
    }
    forall i | 0 <= i < |g.nodes|
      ensures NodeOk(g, i, required)
    {
      TreeNodeAccepted(n, op, i);
    }
  }

  lemma {:induction false} PlacedInOrder(slots: seq<u64>, n: u32, values: seq<u64>, k: nat)
    requires k <= n <= |slots| && |values| == n
    ensures Placed(slots, FirstSlots(n), values, k) == values[..k] + slots[k..]
  {
    if k > 0 {
      PlacedInOrder(slots, n, values, k - 1);
    }
  }

  lemma PlacedFirst(slots: seq<u64>, n: u32, values: seq<u64>)
    requires n <= |slots| && |values| == n
    ensures Placed(slots, FirstSlots(n), values, n)[0..n] == values
  {
    PlacedInOrder(slots, n, values, n);
  }

  lemma TopOfAll(n: nat)
    requires n >= 1
    ensures TopSlot(0, n, n) == n + TreeEdges(n) - 1
  {
  }

  lemma RunPlaced(n: u32, f: Combiner, op: Operation, values: seq<u64>, filled: seq<u64>)
    requires n >= 1 && |values| == n && |filled| >= n + TreeEdges(n)
    ensures RunEdges(f, Placed(filled, FirstSlots(n), values, n), EdgesAbove(op, 0, 0, n, n))[n + TreeEdges(n) - 1]
         == TreeFold(f, Padding(op), values)
  {
    hide TreeEdges;
    hide EdgesAbove;
    hide RunEdges;
    hide TreeFold;
    hide Placed;
    TopOfAll(n);
    var start := Placed(filled, FirstSlots(n), values, n);
    PlacedFirst(filled, n, values);
    RunTree(f, start, op, 0, 0, n, n);
  }

  /** The interpreter on the built graph computes the tree fold of the values, from
      whatever the other scratch slots are filled with. */
  lemma ReduceIsTreeFold(n: u32, op: Operation, values: seq<u64>, filled: seq<u64>)
    requires n >= 1 && 2 * n + TreeEdges(n) <= U32_MAX && |values| == n && |filled| >= n + TreeEdges(n)
    ensures LastSlot(TreeGraph(n, op)) < |filled|
    ensures var g := TreeGraph(n, op);
            RunEdges(CombinerOf(op), Placed(filled, g.foldSlots, values, n), g.edges)[LastSlot(g)]
            == TreeFold(CombinerOf(op), Padding(op), values)
  {
    hide TreeEdges;
    hide EdgesAbove;
    hide RunEdges;
    hide Placed;
    hide TreeFold;
    hide RequiredSlots;
    TreeInWords(n, op);
    RunPlaced(n, CombinerOf(op), op, values, filled);
  }

  /** From building to folding: for every count that fits, the graph is accepted and the
      result is the tree fold. For all but the hash that is the left-to-right fold: the
      row's parities, its maximum, its minimum or its saturated sum. The hash of a
      complete row shows every change of its last value. */
  method BuildAndReduce(n: u32, op: Operation, values: seq<u64>, scratch: array<u64>) returns (r: FoldResult)
    requires n >= 1 && 2 * n + TreeEdges(n) <= U32_MAX
    requires |values| == n && n + TreeEdges(n) <= scratch.Length
    modifies scratch
    ensures r == Folded(TreeFold(CombinerOf(op), Padding(op), values))
    ensures op != HashFold ==> r == Folded(LeftFold(CombinerOf(op), values))
    ensures Means(op, values, r.value)
  {
    hide TreeEdges;
    hide TreeFold;
    hide LeftFold;
    hide Means;
    var build := BuildFoldGraph(n, op, Growing);
    TreeAccepted(n, op, scratch.Length);
    r := FoldGraphReduce(build.graph, values, scratch);
    ReduceIsTreeFold(n, op, values, seq(scratch.Length, _ => Identity(op)));
    TreeFoldMeans(op, values);
    if op != HashFold {
      TreeFoldIsLeftFold(op, values);
    }
  }
}
