/** Resource analysis of a lowered compute program: the liveness sweep that sizes
    the register file (kernel/src/program/compute/metadata.cpp). Values are named
    by the 1-based index of the node that defines them. */
module Liveness {
  import opened Words

  const MAX_NODES: nat := 1024

  /** Operations by the shape of their value edges, and by the counter they bump. */
  datatype Op = Read | ReadUniform | ReadAt | Leaf | Unary | Binary | Ternary | Write | Unknown

  datatype Node = Node(op: Op, lhs: u32, rhs: u32, aux: u32)

  datatype Summary =
    | Rejected
    | Analyzed(directReads: nat, uniformReads: nat, indexedReads: nat, writes: nat, peakLiveWords: u32)

  function Refs(node: Node): seq<u32> {
    match node.op
    case Write => [node.lhs]
    case Unary => [node.lhs]
    case Binary => [node.lhs, node.rhs]
    case Ternary => [node.lhs, node.rhs, node.aux]
    case _ => []
  }

  predicate ProducesValue(node: Node) {
    node.op != Write && node.op != Unknown
  }

  // ------------------------------------------------------------- what is live when

  predicate Produces(nodes: seq<Node>, v: nat) {
    1 <= v <= |nodes| && ProducesValue(nodes[v - 1])
  }

  /** Node n reads value v, or defines it. */
  predicate Uses(nodes: seq<Node>, n: nat, v: nat)
    requires 1 <= n <= |nodes|
  {
    v in Refs(nodes[n - 1]) || (n == v && Produces(nodes, v))
  }

  /** The checks the first loop makes at node n. */
  predicate OperandsOk(nodes: seq<Node>, n: nat)
    requires 1 <= n <= |nodes|
  {
    && nodes[n - 1].op != Unknown
    && forall ref :: ref in Refs(nodes[n - 1]) ==> OperandOk(nodes, n, ref)
  }

  predicate OperandOk(nodes: seq<Node>, n: nat, ref: u32) {
    ref != 0 && ref < n && Produces(nodes, ref)
  }

  function Count(nodes: seq<Node>, op: Op): nat {
    if nodes == [] then 0
    else Count(nodes[..|nodes| - 1], op) + if nodes[|nodes| - 1].op == op then 1 else 0
  }

  /** The programs the analysis accepts. */
  predicate Sound(nodes: seq<Node>) {
    && 0 < |nodes| <= MAX_NODES
    && (forall n :: 1 <= n <= |nodes| ==> OperandsOk(nodes, n))
    && Count(nodes, Write) > 0
  }

  /** Last node up to `upto` that uses v, or 0. */
  function LastUse(nodes: seq<Node>, v: nat, upto: nat): (r: nat)
    requires upto <= |nodes|
    ensures r <= upto
  {
    if upto == 0 then 0 else if Uses(nodes, upto, v) then upto else LastUse(nodes, v, upto - 1)
  }

  lemma {:induction false} LastUseIsLast(nodes: seq<Node>, v: nat, upto: nat, n: nat)
    requires 1 <= n && upto <= |nodes|
    ensures n <= LastUse(nodes, v, upto) <==> exists m :: n <= m <= upto && Uses(nodes, m, v)
  {
    if upto > 0 && !Uses(nodes, upto, v) {
      LastUseIsLast(nodes, v, upto - 1, n);
    }
  }

  /** The stretch of nodes over which each value is live: from its own node up to
      its last use. Entry 0 is not a value. */
  datatype Spans = Spans(last: seq<nat>, made: seq<bool>) {

    predicate Valid() {
      && |last| == |made| > 0 && !made[0]
      && forall v :: 0 <= v < |made| && made[v] ==> v <= last[v] < |last|
    }

    predicate LiveAt(v: nat, n: nat) {
      v < |made| && v < |last| && made[v] && v <= n <= last[v]
    }

    ghost function Live(n: nat): set<nat> {
      set v: nat | v < |made| && LiveAt(v, n)
    }

    /** Values last used at n, among those before k. */
    ghost function Dying(n: nat, k: nat): set<nat> {
      set v: nat | v < k && v < |made| && v < |last| && made[v] && last[v] == n
    }

    /** The values still live when node n is reached, before it defines its own. */
    ghost function Carried(n: nat): set<nat> {
      Live(n) - {n}
    }
  }

  function SpansOf(nodes: seq<Node>): Spans {
    Spans(seq(|nodes| + 1, v requires 0 <= v <= |nodes| => LastUse(nodes, v, |nodes|)),
          seq(|nodes| + 1, v requires 0 <= v <= |nodes| => Produces(nodes, v)))
  }

  lemma SpansAreValid(nodes: seq<Node>)
    ensures SpansOf(nodes).Valid()
  {
    forall v | 1 <= v <= |nodes| && Produces(nodes, v)
      ensures v <= LastUse(nodes, v, |nodes|)
    {
      assert Uses(nodes, v, v);
      LastUseIsLast(nodes, v, |nodes|, v);
    }
  }

  /** A value is live at n exactly when it is defined by then and some node from n
      on still uses it. */
  lemma LiveMeansStillUsed(nodes: seq<Node>, v: nat, n: nat)
    requires 1 <= n
    ensures v in SpansOf(nodes).Live(n) <==>
              v <= n && Produces(nodes, v) && exists m :: n <= m <= |nodes| && Uses(nodes, m, v)
  {
    LastUseIsLast(nodes, v, |nodes|, n);
  }

  // ------------------------------------------------------------ how liveness moves

  lemma DyingGrows(s: Spans, n: nat, k: nat)
    requires s.Valid() && k < |s.made|
    ensures |s.Dying(n, k + 1)| == |s.Dying(n, k)| + if s.made[k] && s.last[k] == n then 1 else 0
  {
    assert s.Dying(n, k + 1) == s.Dying(n, k) + if s.made[k] && s.last[k] == n then {k} else {};
  }

  /** A value is live from its definition on, and dies exactly once. */
  lemma SweepStep(s: Spans, n: nat)
    requires s.Valid() && n < |s.made|
    ensures s.Dying(n, |s.made|) <= s.Live(n)
    ensures s.Carried(n + 1) == s.Live(n) - s.Dying(n, |s.made|)
    ensures n in s.Live(n) <==> s.made[n]
  {
  }

  lemma CountWithout(live: set<nat>, n: nat)
    ensures |live| == |live - {n}| + if n in live then 1 else 0
  {
    assert live == live - {n} + if n in live then {n} else {};
  }

  lemma CountDying(live: set<nat>, dying: set<nat>)
    requires dying <= live
    ensures |dying| <= |live| && |live - dying| == |live| - |dying|
  {
    assert live == dying + (live - dying);
  }

  lemma LiveBounded(s: Spans, n: nat)
    requires s.Valid() && n < |s.made|
    ensures |s.Live(n)| <= n
  {
    assert s.Live(n) <= NatsBelow(n + 1) - {0};
    SubsetSize(s.Live(n), NatsBelow(n + 1) - {0});
  }

  /** Registers in use while node n executes, the ones it was reached with, and the
      ones it releases. */
  ghost function Needed(s: Spans, words: u32, n: nat): int {
    words * |s.Live(n)|
  }

  ghost function Inherited(s: Spans, words: u32, n: nat): int {
    words * |s.Carried(n)|
  }

  ghost function FreedBefore(s: Spans, words: u32, n: nat, k: nat): int {
    words * |s.Dying(n, k)|
  }

  ghost function Freed(s: Spans, words: u32, n: nat): int {
    FreedBefore(s, words, n, |s.made|)
  }

  lemma NothingFreed(s: Spans, words: u32, n: nat)
    requires s.Valid()
    ensures FreedBefore(s, words, n, 1) == 0
  {
    assert s.Dying(n, 1) == {};
  }

  lemma FreedGrows(s: Spans, words: u32, n: nat, k: nat)
    requires s.Valid() && k < |s.made|
    ensures FreedBefore(s, words, n, k + 1)
         == FreedBefore(s, words, n, k) + if s.made[k] && s.last[k] == n then words else 0
  {
    DyingGrows(s, n, k);
    Distribute(words, |s.Dying(n, k)|, 1);
  }

  lemma Distribute(words: int, a: int, b: int)
    ensures words * (a + b) == words * a + words * b && words * (a - b) == words * a - words * b
  {
  }

  lemma SweepCounts(s: Spans, n: nat)
    requires s.Valid() && 1 <= n < |s.made|
    ensures |s.Live(n)| == |s.Carried(n)| + if s.made[n] then 1 else 0
    ensures |s.Dying(n, |s.made|)| <= |s.Live(n)| <= n
    ensures |s.Carried(n + 1)| == |s.Live(n)| - |s.Dying(n, |s.made|)|
  {
    SweepStep(s, n);
    LiveBounded(s, n);
    CountWithout(s.Live(n), n);
    CountDying(s.Live(n), s.Dying(n, |s.made|));
  }

  lemma WordsFit(words: u32, count: nat)
    requires count <= MAX_NODES && words <= 4
    ensures 0 <= words * count < TWO_32
  {
    MulBoth(words, 4, count, MAX_NODES);
  }

  lemma ScaleCounts(words: u32, n: nat, carried: nat, live: nat, dying: nat, next: nat)
    requires dying <= live <= n <= MAX_NODES && words <= 4 && next == live - dying
    ensures live == carried + 1 ==> words * live == words * carried + words
    ensures 0 <= words * dying <= words * live < TWO_32
    ensures words * next == words * live - words * dying
  {
    WordsFit(words, live);
    MulMonotone(dying, live, words);
    WordsFit(words, dying);
    Distribute(words, live, dying);
    Distribute(words, carried, 1);
  }

  lemma SweepWords(s: Spans, words: u32, n: nat)
    requires s.Valid() && 1 <= n < |s.made| <= MAX_NODES + 1 && words <= 4
    ensures Needed(s, words, n) == Inherited(s, words, n) + if s.made[n] then words else 0
    ensures 0 <= Freed(s, words, n) <= Needed(s, words, n) < TWO_32
    ensures Inherited(s, words, n + 1) == Needed(s, words, n) - Freed(s, words, n)
  {
    SweepCounts(s, n);
    ScaleCounts(words, n, |s.Carried(n)|, |s.Live(n)|, |s.Dying(n, |s.made|)|, |s.Carried(n + 1)|);
  }

  /** The most words in use at any node before `upto`. */
  ghost predicate IsPeakBefore(s: Spans, words: u32, peak: nat, upto: nat) {
    && (forall n :: 1 <= n < upto ==> Needed(s, words, n) <= peak)
    && (peak != 0 ==> exists n :: 1 <= n < upto && Needed(s, words, n) == peak)
  }

  ghost predicate IsPeak(s: Spans, words: u32, peak: nat) {
    IsPeakBefore(s, words, peak, |s.made|)
  }

  lemma NothingCarried(s: Spans)
    requires s.Valid()
    ensures |s.Carried(1)| == 0 == |s.Carried(|s.made|)|
  {
    assert s.Carried(1) == {} && s.Carried(|s.made|) == {};
  }

  lemma SweepEnds(s: Spans, words: u32)
    requires s.Valid()
    ensures Inherited(s, words, 1) == 0 == Inherited(s, words, |s.made|)
    ensures IsPeakBefore(s, words, 0, 1)
  {
    NothingCarried(s);
    assert words * 0 == 0;
  }

  lemma PeakExtends(s: Spans, words: u32, peak: nat, n: nat)
    requires IsPeakBefore(s, words, peak, n) && 1 <= n && 0 <= Needed(s, words, n)
    ensures IsPeakBefore(s, words, Max(peak, Needed(s, words, n)), n + 1)
  {
    var more := Max(peak, Needed(s, words, n));
    if more == peak && peak != 0 {
      var m :| 1 <= m < n && Needed(s, words, m) == peak;
      assert 1 <= m < n + 1 && Needed(s, words, m) == more;
    }
  }

  // ------------------------------------------------------------------- the analysis

  datatype Counts = Counts(direct: nat, uniform: nat, indexed: nat, writes: nat)

  function CountsOf(nodes: seq<Node>): Counts {
    Counts(Count(nodes, Read), Count(nodes, ReadUniform), Count(nodes, ReadAt), Count(nodes, Write))
  }

  function Tallied(c: Counts, op: Op): Counts {
    match op
    case Read => c.(direct := c.direct + 1)
    case ReadUniform => c.(uniform := c.uniform + 1)
    case ReadAt => c.(indexed := c.indexed + 1)
    case Write => c.(writes := c.writes + 1)
    case _ => c
  }

  ghost predicate ScannedTo(nodes: seq<Node>, lastUse: seq<nat>, produces: seq<bool>, upto: nat)
    requires upto <= |nodes| <= MAX_NODES
  {
    && |lastUse| == |produces| == MAX_NODES + 1
    && (forall v :: 0 <= v <= MAX_NODES ==> lastUse[v] == LastUse(nodes, v, upto))
    && (forall v :: 0 <= v <= MAX_NODES ==> produces[v] == (v <= upto && Produces(nodes, v)))
  }

  /** Checks the operands of one node and records it as their latest user. */
  method ScanOperands(nodes: seq<Node>, current: nat, lastUse: array<nat>, produces: array<bool>) returns (ok: bool)
    requires 1 <= current <= |nodes| <= MAX_NODES
    requires ScannedTo(nodes, lastUse[..], produces[..], current - 1)
    modifies lastUse
    ensures ok <==> forall ref :: ref in Refs(nodes[current - 1]) ==> OperandOk(nodes, current, ref)
    ensures ok ==> forall v :: 0 <= v <= MAX_NODES ==>
                     lastUse[v] == if v in Refs(nodes[current - 1]) then current else LastUse(nodes, v, current - 1)
  {
    var refs := Refs(nodes[current - 1]);
    for operand := 0 to |refs|
      invariant forall ref :: ref in refs[..operand] ==> OperandOk(nodes, current, ref)
      invariant forall v :: 0 <= v <= MAX_NODES ==>
                  lastUse[v] == if v in refs[..operand] then current else LastUse(nodes, v, current - 1)
    {
      var ref := refs[operand];
      if ref == 0 || ref >= current || !produces[ref] {
        assert !OperandOk(nodes, current, refs[operand]);
        return false;
      }
      lastUse[ref] := current;
      assert refs[..operand + 1] == refs[..operand] + [ref];
    }
    assert refs[..|refs|] == refs;
    ok := true;
  }

  /** The first loop on one node: its operands, and what it defines. */
  method ScanNode(nodes: seq<Node>, current: nat, lastUse: array<nat>, produces: array<bool>) returns (ok: bool)
    requires 1 <= current <= |nodes| <= MAX_NODES && lastUse.Length == produces.Length == MAX_NODES + 1
    requires ScannedTo(nodes, lastUse[..], produces[..], current - 1)
    modifies lastUse, produces
    ensures ok <==> OperandsOk(nodes, current)
    ensures ok ==> ScannedTo(nodes, lastUse[..], produces[..], current)
  {
    hide OperandOk;
    hide Refs;
    var node := nodes[current - 1];
    if node.op == Unknown {
      return false;
    }
    ok := ScanOperands(nodes, current, lastUse, produces);
    if !ok {
      return;
    }
    produces[current] := ProducesValue(node);
    if ProducesValue(node) {
      lastUse[current] := current;
    }
  }

  lemma NothingScanned(nodes: seq<Node>, lastUse: seq<nat>, produces: seq<bool>)
    requires |nodes| <= MAX_NODES && |lastUse| == |produces| == MAX_NODES + 1
    requires forall v :: 0 <= v <= MAX_NODES ==> lastUse[v] == 0 && !produces[v]
    ensures ScannedTo(nodes, lastUse, produces, 0) && CountsOf(nodes[..0]) == Counts(0, 0, 0, 0)
  {
  }

  lemma CountsGrow(nodes: seq<Node>, k: nat)
    requires k < |nodes|
    ensures CountsOf(nodes[..k + 1]) == Tallied(CountsOf(nodes[..k]), nodes[k].op)
  {
    assert nodes[..k + 1][..k] == nodes[..k];
  }

  /** The first loop: operand checks, last uses and operation counts. */
  method Scan(nodes: seq<Node>, lastUse: array<nat>, produces: array<bool>) returns (ok: bool, counts: Counts)
    requires |nodes| <= MAX_NODES
    requires lastUse.Length == produces.Length == MAX_NODES + 1
    requires forall v :: 0 <= v <= MAX_NODES ==> lastUse[v] == 0 && !produces[v]
    modifies lastUse, produces
    ensures ok <==> forall n :: 1 <= n <= |nodes| ==> OperandsOk(nodes, n)
    ensures ok ==> counts == CountsOf(nodes) && ScannedTo(nodes, lastUse[..], produces[..], |nodes|)
  {
    hide ScannedTo;
    hide OperandsOk;
    hide CountsOf;
    hide Tallied;
    counts := Counts(0, 0, 0, 0);
    NothingScanned(nodes, lastUse[..], produces[..]);
    for index := 0 to |nodes|
      invariant forall n :: 1 <= n <= index ==> OperandsOk(nodes, n)
      invariant ScannedTo(nodes, lastUse[..], produces[..], index)
      invariant counts == CountsOf(nodes[..index])
    {
      ok := ScanNode(nodes, index + 1, lastUse, produces);
      if !ok {
        return;
      }
      counts := Tallied(counts, nodes[index].op);
      CountsGrow(nodes, index);
    }
    assert nodes[..|nodes|] == nodes;
    ok := true;
  }

  /** The second loop: how many words each node releases. */
  method Bin(nodeCount: nat, words: u32, lastUse: array<nat>, produces: array<bool>, ghost s: Spans)
    returns (release: array<u32>)
    requires nodeCount <= MAX_NODES && words <= 4 && s.Valid() && |s.made| == nodeCount + 1
    requires lastUse.Length == produces.Length == MAX_NODES + 1
    requires lastUse[..nodeCount + 1] == s.last && produces[..nodeCount + 1] == s.made
    ensures fresh(release) && release.Length == MAX_NODES + 1
    ensures forall n :: 0 <= n <= nodeCount ==> release[n] == Freed(s, words, n)
  {
    hide FreedBefore;
    release := new u32[MAX_NODES + 1](_ => 0);
    forall n | 0 <= n <= nodeCount
      ensures FreedBefore(s, words, n, 1) == 0
    {
      NothingFreed(s, words, n);
    }
    for node := 1 to nodeCount + 1
      invariant forall n :: 0 <= n <= nodeCount ==> release[n] == FreedBefore(s, words, n, node) <= 4 * node
    {
      forall n | 0 <= n <= nodeCount
        ensures FreedBefore(s, words, n, node + 1)
             == FreedBefore(s, words, n, node) + if s.made[node] && s.last[node] == n then words else 0
      {
        FreedGrows(s, words, n, node);
      }
      if produces[node] {
        assert lastUse[node] == s.last[node];
        release[lastUse[node]] := release[lastUse[node]] + words;
      }
    }
  }

  /** One node of the sweep; `ok` is false where the release would run below zero. */
  method SweepNode(node: nat, words: u32, released: u32, made: bool, live: u32, peak: u32, ghost s: Spans)
    returns (ok: bool, after: u32, most: u32)
    requires s.Valid() && 1 <= node < |s.made| <= MAX_NODES + 1 && words <= 4
    requires released == Freed(s, words, node) && made == s.made[node]
    requires live == Inherited(s, words, node) && IsPeakBefore(s, words, peak, node)
    ensures ok && after == Inherited(s, words, node + 1) && IsPeakBefore(s, words, most, node + 1)
  {
    SweepWords(s, words, node);
    PeakExtends(s, words, peak, node);
    after, most := live, peak;
    if made {
      after := after + words;
    }
    if after > most {
      most := after;
    }
    if released > after {
      return false, after, most;
    }
    ok, after := true, after - released;
  }

  /** The third loop: the sweep itself. It never runs below zero and ends at zero. */
  method Sweep(nodeCount: nat, words: u32, release: array<u32>, produces: array<bool>, ghost s: Spans)
    returns (ok: bool, peak: u32, live: u32)
    requires nodeCount <= MAX_NODES && words <= 4 && s.Valid() && |s.made| == nodeCount + 1
    requires release.Length == produces.Length == MAX_NODES + 1
    requires forall n :: 0 <= n <= nodeCount ==> release[n] == Freed(s, words, n) && produces[n] == s.made[n]
    ensures ok && live == 0 && IsPeak(s, words, peak)
  {
    ok, live, peak := true, 0, 0;
    SweepEnds(s, words);
    for node := 1 to nodeCount + 1
      invariant ok && live == Inherited(s, words, node) && IsPeakBefore(s, words, peak, node)
    {
      ok, live, peak := SweepNode(node, words, release[node], produces[node], live, peak, s);
      if !ok {
        return;
      }
    }
  }

  // Any byte can be cast to either enumeration.

  datatype Domain = I32 | U32 | I64 | U64 | Fixed | OtherDomain

  datatype Scalar = Lane32 | Lane64 | OtherScalar

  datatype ParsedIR = ParsedIR(ok: bool, scalarMode: nat, nodes: seq<Node>)

  function DomainModeFor(scalar: Scalar, domain: Domain): nat {
    match domain
    case I32 => 3
    case U32 => 4
    case I64 => 5
    case U64 => 6
    case Fixed => if scalar == Lane64 then 2 else 1
    case OtherDomain => 0
  }

  /** The checks made before any node is looked at. */
  predicate Admitted(parsed: ParsedIR, scalar: Scalar, domain: Domain) {
    parsed.ok && scalar != OtherScalar && domain != OtherDomain && parsed.scalarMode == DomainModeFor(scalar, domain)
  }

  function WordsPerValue(domain: Domain, scalar: Scalar): (r: u32)
    ensures 1 <= r <= 4
  {
    if domain == Fixed then 4 else if scalar == Lane64 then 2 else 1
  }

  lemma ScannedSpans(nodes: seq<Node>, lastUse: seq<nat>, produces: seq<bool>)
    requires |nodes| <= MAX_NODES && ScannedTo(nodes, lastUse, produces, |nodes|)
    ensures lastUse[..|nodes| + 1] == SpansOf(nodes).last && produces[..|nodes| + 1] == SpansOf(nodes).made
  {
  }

  /** The second and third loops; None where they would reject. */
  method PeakOfSpans(nodeCount: nat, words: u32, lastUse: array<nat>, produces: array<bool>, ghost s: Spans)
    returns (peak: Option<u32>)
    requires nodeCount <= MAX_NODES && words <= 4 && s.Valid() && |s.made| == nodeCount + 1
    requires lastUse.Length == produces.Length == MAX_NODES + 1
    requires lastUse[..nodeCount + 1] == s.last && produces[..nodeCount + 1] == s.made
    ensures peak.Some? && IsPeak(s, words, peak.value)
  {
    var release := Bin(nodeCount, words, lastUse, produces, s);
    assert forall n :: 0 <= n <= nodeCount ==> produces[n] == s.made[n];
    var ok, most, live := Sweep(nodeCount, words, release, produces, s);
    peak := if !ok || live != 0 then None else Some(most);
  }

  lemma {:induction false} SomeNodeIs(nodes: seq<Node>, op: Op) returns (n: nat)
    requires Count(nodes, op) > 0
    ensures 1 <= n <= |nodes| && nodes[n - 1].op == op
  {
    var last := |nodes| - 1;
    if nodes[last].op == op {
      n := |nodes|;
    } else {
      n := SomeNodeIs(nodes[..last], op);
    }
  }

  /** A program that writes has a value to write. */
  lemma SomethingIsLive(nodes: seq<Node>) returns (n: nat)
    requires Sound(nodes)
    ensures 1 <= n <= |nodes| && n in SpansOf(nodes).Live(n)
  {
    var write := SomeNodeIs(nodes, Write);
    n := nodes[write - 1].lhs;
    assert OperandsOk(nodes, write) && OperandOk(nodes, write, n);
    SpansAreValid(nodes);
  }

  lemma PeakIsPositive(nodes: seq<Node>, words: u32, peak: nat)
    requires Sound(nodes) && words > 0 && IsPeak(SpansOf(nodes), words, peak)
    ensures peak > 0
  {
    var n := SomethingIsLive(nodes);
    var live := SpansOf(nodes).Live(n);
    assert live != {} && Needed(SpansOf(nodes), words, n) <= peak;
    MulMonotone(1, |live|, words);
  }

  // ------------------------------------------------- what the peak is good for

  /** No two values that are live at the same node share a register. */
  ghost predicate Allocates(s: Spans, reg: map<nat, nat>, registers: nat, upto: nat) {
    && (forall v :: v in reg ==> reg[v] < registers)
    && (forall n, v :: 1 <= n <= upto && s.LiveAt(v, n) ==> v in reg)
    && (forall n, v, w :: 1 <= n <= upto && s.LiveAt(v, n) && s.LiveAt(w, n) && v != w ==> reg[v] != reg[w])
  }

  ghost predicate AllocatesAll(s: Spans, reg: map<nat, nat>, registers: nat)
    requires |s.made| > 0
  {
    Allocates(s, reg, registers, |s.made| - 1)
  }

  ghost function Image(values: set<nat>, reg: map<nat, nat>): set<nat> {
    set v | v in values && v in reg :: reg[v]
  }

  lemma {:induction false} ImageSize(values: set<nat>, reg: map<nat, nat>)
    requires forall v :: v in values ==> v in reg
    requires forall v, w :: v in values && w in values && v != w ==> reg[v] != reg[w]
    ensures |Image(values, reg)| == |values|
    decreases |values|
  {
    if values == {} {
      assert Image(values, reg) == {};
    } else {
      var x :| x in values;
      ImageSize(values - {x}, reg);
      assert Image(values, reg) == Image(values - {x}, reg) + {reg[x]};
    }
  }

  lemma FreeRegister(used: set<nat>, registers: nat) returns (r: nat)
    requires |used| < registers
    ensures r < registers && r !in used
  {
    if NatsBelow(registers) <= used {
      SubsetSize(NatsBelow(registers), used);
      assert false;
    }
    r :| r in NatsBelow(registers) && r !in used;
  }

  /** What node n was reached with was live at the node before it. */
  lemma CarriedWasLive(s: Spans, n: nat, v: nat)
    requires s.Valid() && s.LiveAt(v, n) && v != n
    ensures 1 <= n - 1 && s.LiveAt(v, n - 1)
  {
  }

  lemma CarriedImage(s: Spans, reg: map<nat, nat>, registers: nat, n: nat)
    requires s.Valid() && 1 <= n && Allocates(s, reg, registers, n - 1)
    ensures |Image(s.Carried(n), reg)| == |s.Carried(n)|
    ensures forall v :: s.LiveAt(v, n) && v != n ==> v in reg && reg[v] in Image(s.Carried(n), reg)
  {
    forall v | s.LiveAt(v, n) && v != n
      ensures 1 <= n - 1 && s.LiveAt(v, n - 1)
    {
      CarriedWasLive(s, n, v);
    }
    ImageSize(s.Carried(n), reg);
    assert forall v :: s.LiveAt(v, n) && v != n ==> v in s.Carried(n);
  }

  /** Node n can take a register that none of the values it was reached with holds. */
  lemma NextRegister(s: Spans, reg: map<nat, nat>, registers: nat, n: nat) returns (free: nat)
    requires s.Valid() && 1 <= n < |s.made| && Allocates(s, reg, registers, n - 1)
    requires |s.Live(n)| <= registers && s.made[n]
    ensures free < registers
    ensures forall v :: s.LiveAt(v, n) && v != n ==> v in reg && reg[v] != free
  {
    CarriedImage(s, reg, registers, n);
    SweepCounts(s, n);
    free := FreeRegister(Image(s.Carried(n), reg), registers);
  }

  /** Enough registers for the busiest node are enough for the whole program. */
  lemma {:induction false} EnoughForThePeak(s: Spans, registers: nat, upto: nat) returns (reg: map<nat, nat>)
    requires s.Valid() && upto < |s.made| && forall n :: 1 <= n < |s.made| ==> |s.Live(n)| <= registers
    ensures Allocates(s, reg, registers, upto)
  {
    if upto == 0 {
      reg := map[];
    } else {
      var before := EnoughForThePeak(s, registers, upto - 1);
      reg := before;
      if s.made[upto] {
        var free := NextRegister(s, before, registers, upto);
        reg := before[upto := free];
      }
      ExtendAllocation(s, before, reg, registers, upto);
    }
  }

  lemma ExtendAllocation(s: Spans, before: map<nat, nat>, reg: map<nat, nat>, registers: nat, n: nat)
    requires s.Valid() && 1 <= n < |s.made| && Allocates(s, before, registers, n - 1)
    requires forall v :: v in before && v != n ==> v in reg && reg[v] == before[v]
    requires forall v :: v in reg ==> reg[v] < registers
    requires s.made[n] ==> n in reg && forall v :: s.LiveAt(v, n) && v != n ==> v in reg && reg[v] != reg[n]
    ensures Allocates(s, reg, registers, n)
  {
    forall m, v | 1 <= m <= n && s.LiveAt(v, m)
      ensures v in reg && (v != n ==> v in before)
    {
      if m == n && v != n {
        CarriedWasLive(s, n, v);
      }
    }
    forall m, v, w | 1 <= m <= n && s.LiveAt(v, m) && s.LiveAt(w, m) && v != w
      ensures reg[v] != reg[w]
    {
      if m == n && v != n && w != n {
        CarriedWasLive(s, n, v);
        CarriedWasLive(s, n, w);
      }
    }
  }

  /** Registers suffice exactly when the busiest node needs no more: the swept peak
      is the size of the smallest register file the program fits. */
  lemma PeakIsRegisterNeed(s: Spans, words: u32, peak: nat, registers: nat)
    requires s.Valid() && words > 0 && IsPeak(s, words, peak)
    ensures (exists reg :: AllocatesAll(s, reg, registers)) <==> peak <= words * registers
  {
    if reg :| AllocatesAll(s, reg, registers) {
      forall n | 1 <= n < |s.made|
        ensures Needed(s, words, n) <= words * registers
      {
        ImageSize(s.Live(n), reg);
        SubsetSize(Image(s.Live(n), reg), NatsBelow(registers));
        MulMonotone(|s.Live(n)|, registers, words);
      }
    }
    if peak <= words * registers {
      forall n | 1 <= n < |s.made|
        ensures |s.Live(n)| <= registers
      {
        assert Needed(s, words, n) <= peak;
        MulMonotone(registers + 1, |s.Live(n)|, words);
        Distribute(words, registers, 1);
      }
      var reg := EnoughForThePeak(s, registers, |s.made| - 1);
      assert AllocatesAll(s, reg, registers);
    }
  }

  // -------------------------------------------- said of the program and its fields

  /** The node takes value v as an operand, in one of the fields its operation has. */
  predicate Takes(node: Node, v: nat) {
    || (v == node.lhs && (node.op == Write || node.op == Unary || node.op == Binary || node.op == Ternary))
    || (v == node.rhs && (node.op == Binary || node.op == Ternary))
    || (v == node.aux && node.op == Ternary)
  }

  predicate TakesAt(nodes: seq<Node>, n: nat, v: nat) {
    1 <= n <= |nodes| && Takes(nodes[n - 1], v)
  }

  predicate Defines(node: Node) {
    node.op == Read || node.op == ReadUniform || node.op == ReadAt || node.op == Leaf
    || node.op == Unary || node.op == Binary || node.op == Ternary
  }

  predicate DefinesAt(nodes: seq<Node>, v: nat) {
    1 <= v <= |nodes| && Defines(nodes[v - 1])
  }

  /** Node n is known, and its operands are values of earlier nodes. */
  ghost predicate Follows(nodes: seq<Node>, n: nat)
    requires 1 <= n <= |nodes|
  {
    nodes[n - 1].op != Unknown && forall v: nat :: TakesAt(nodes, n, v) ==> v < n && DefinesAt(nodes, v)
  }

  ghost predicate Program(nodes: seq<Node>) {
    && 0 < |nodes| <= 1024
    && (forall n :: 1 <= n <= |nodes| ==> Follows(nodes, n))
    && (exists n :: 0 <= n < |nodes| && nodes[n].op == Write)
  }

  /** At node n value v is being defined, or has been and is still to be taken. */
  ghost predicate Needs(nodes: seq<Node>, v: nat, n: nat) {
    && v <= n <= |nodes| && DefinesAt(nodes, v)
    && (v == n || exists m: nat :: n <= m && TakesAt(nodes, m, v))
  }

  /** Values needed at one node have registers of their own. */
  ghost predicate RunsOn(nodes: seq<Node>, reg: map<nat, nat>, registers: nat) {
    && (forall v :: v in reg ==> reg[v] < registers)
    && (forall n, v :: Needs(nodes, v, n) ==> v in reg)
    && (forall n, v, w :: Needs(nodes, v, n) && Needs(nodes, w, n) && v != w ==> reg[v] != reg[w])
  }

  ghost predicate Fits(nodes: seq<Node>, registers: nat) {
    exists reg :: RunsOn(nodes, reg, registers)
  }

  lemma RefsAreTaken(nodes: seq<Node>, n: nat, v: nat)
    requires 1 <= n <= |nodes|
    ensures v in Refs(nodes[n - 1]) <==> TakesAt(nodes, n, v)
    ensures TakesAt(nodes, n, v) ==> v < TWO_32
  {
  }

  lemma ProducedIsDefined(nodes: seq<Node>, v: nat)
    ensures Produces(nodes, v) <==> DefinesAt(nodes, v)
  {
  }

  lemma OperandsMean(nodes: seq<Node>, n: nat)
    requires 1 <= n <= |nodes|
    ensures OperandsOk(nodes, n) <==> Follows(nodes, n)
  {
    hide TakesAt;
    hide DefinesAt;
    hide Refs;
    hide Produces;
    if OperandsOk(nodes, n) {
      forall v: nat | TakesAt(nodes, n, v)
        ensures v < n && DefinesAt(nodes, v)
      {
        RefsAreTaken(nodes, n, v);
        ProducedIsDefined(nodes, v);
        assert OperandOk(nodes, n, v);
      }
    }
    if Follows(nodes, n) {
      forall ref | ref in Refs(nodes[n - 1])
        ensures OperandOk(nodes, n, ref)
      {
        RefsAreTaken(nodes, n, ref);
        ProducedIsDefined(nodes, ref);
        DefinedInside(nodes, ref);
      }
    }
  }

  lemma DefinedInside(nodes: seq<Node>, v: nat)
    requires DefinesAt(nodes, v)
    ensures 1 <= v <= |nodes|
  {
  }

  lemma {:induction false} CountMeans(nodes: seq<Node>, op: Op)
    ensures Count(nodes, op) > 0 <==> exists n :: 0 <= n < |nodes| && nodes[n].op == op
    decreases |nodes|
  {
    if nodes != [] {
      CountMeans(nodes[..|nodes| - 1], op);
    }
  }

  lemma SoundMeans(nodes: seq<Node>)
    ensures Sound(nodes) <==> Program(nodes)
  {
    hide OperandsOk;
    hide Follows;
    forall n | 1 <= n <= |nodes|
      ensures OperandsOk(nodes, n) <==> Follows(nodes, n)
    {
      OperandsMean(nodes, n);
    }
    CountMeans(nodes, Write);
  }

  lemma UsedIsTaken(nodes: seq<Node>, v: nat, n: nat)
    requires 1 <= n && v <= n
    ensures (exists m :: n <= m <= |nodes| && Uses(nodes, m, v)) && Produces(nodes, v)
       <==> DefinesAt(nodes, v) && n <= |nodes| && (v == n || exists m: nat :: n <= m && TakesAt(nodes, m, v))
  {
    hide Refs;
    hide Takes;
    ProducedIsDefined(nodes, v);
    if m :| n <= m <= |nodes| && Uses(nodes, m, v) {
      RefsAreTaken(nodes, m, v);
    }
    if m: nat :| n <= m && TakesAt(nodes, m, v) {
      RefsAreTaken(nodes, m, v);
      assert Uses(nodes, m, v);
    }
    if v == n && DefinesAt(nodes, v) {
      assert Uses(nodes, n, v);
    }
  }

  lemma LiveMeansNeeded(nodes: seq<Node>, v: nat, n: nat)
    requires 1 <= n
    ensures SpansOf(nodes).LiveAt(v, n) <==> Needs(nodes, v, n)
  {
    hide Uses;
    hide TakesAt;
    LiveMeansStillUsed(nodes, v, n);
    assert SpansOf(nodes).LiveAt(v, n) <==> v in SpansOf(nodes).Live(n);
    if v <= n {
      UsedIsTaken(nodes, v, n);
    }
  }

  lemma AllocationRuns(nodes: seq<Node>, reg: map<nat, nat>, registers: nat)
    ensures AllocatesAll(SpansOf(nodes), reg, registers) <==> RunsOn(nodes, reg, registers)
  {
    hide Needs;
    forall v: nat, n: nat | 1 <= n <= |nodes|
      ensures SpansOf(nodes).LiveAt(v, n) <==> Needs(nodes, v, n)
    {
      LiveMeansNeeded(nodes, v, n);
    }
    forall v: nat, n: nat | Needs(nodes, v, n)
      ensures 1 <= n <= |nodes|
    {
      NeedsInside(nodes, v, n);
    }
  }

  lemma NeedsInside(nodes: seq<Node>, v: nat, n: nat)
    requires Needs(nodes, v, n)
    ensures 1 <= n <= |nodes|
  {
  }

  /** What the peak means: so many registers are enough to run the program if and only
      if the peak is at most their words. */
  lemma PeakMeansRegisters(nodes: seq<Node>, words: u32, peak: nat, registers: nat)
    requires words > 0 && IsPeak(SpansOf(nodes), words, peak)
    ensures Fits(nodes, registers) <==> peak <= words * registers
  {
    hide RunsOn;
    hide AllocatesAll;
    SpansAreValid(nodes);
    PeakIsRegisterNeed(SpansOf(nodes), words, peak, registers);
    forall reg: map<nat, nat> | true
      ensures AllocatesAll(SpansOf(nodes), reg, registers) <==> RunsOn(nodes, reg, registers)
    {
      AllocationRuns(nodes, reg, registers);
    }
  }

  /** The modes the analysis admits, and for which scalar and domain. */
  lemma AdmittedIff(parsed: ParsedIR, scalar: Scalar, domain: Domain)
    ensures Admitted(parsed, scalar, domain) <==>
              && parsed.ok && scalar != OtherScalar && domain != OtherDomain
              && match parsed.scalarMode
                 case 1 => domain == Fixed && scalar == Lane32
                 case 2 => domain == Fixed && scalar == Lane64
                 case 3 => domain == I32
                 case 4 => domain == U32
                 case 5 => domain == I64
                 case 6 => domain == U64
                 case _ => false
  {
  }

  /** The whole analysis. It accepts exactly the admitted programs: the two rejections
      the sweep could make, and the zero peak, never happen on one. So many registers are
      enough to run the program exactly when the peak is at most their words. */
  method AnalyzeComputeResources(parsed: ParsedIR, scalar: Scalar, domain: Domain)
    returns (out: Summary)
    ensures out.Analyzed? <==> Admitted(parsed, scalar, domain) && Program(parsed.nodes)
    ensures out.Analyzed? ==>
              && CountsOf(parsed.nodes) == Counts(out.directReads, out.uniformReads, out.indexedReads, out.writes)
              && IsPeak(SpansOf(parsed.nodes), WordsPerValue(domain, scalar), out.peakLiveWords)
              && out.peakLiveWords > 0
    ensures out.Analyzed? ==>
              forall registers: nat ::
                Fits(parsed.nodes, registers)
                <==> out.peakLiveWords <= (if domain == Fixed then 4 else if scalar == Lane64 then 2 else 1) * registers
  {
    hide Fits;
    hide IsPeak;
    hide Program;
    SoundMeans(parsed.nodes);
    var nodes := parsed.nodes;
    if !Admitted(parsed, scalar, domain) || nodes == [] || |nodes| > MAX_NODES {
      return Rejected;
    }
    var lastUse := new nat[MAX_NODES + 1](_ => 0);
    var produces := new bool[MAX_NODES + 1](_ => false);
    var ok, counts := Scan(nodes, lastUse, produces);
    if !ok || counts.writes == 0 {
      return Rejected;
    }
    ghost var s := SpansOf(nodes);
    SpansAreValid(nodes);
    ScannedSpans(nodes, lastUse[..], produces[..]);
    var peak := PeakOfSpans(|nodes|, WordsPerValue(domain, scalar), lastUse, produces, s);
    PeakIsPositive(nodes, WordsPerValue(domain, scalar), peak.value);
    if peak.None? || peak.value == 0 {
      return Rejected;
    }
    forall registers: nat | true
      ensures Fits(nodes, registers) <==> peak.value <= WordsPerValue(domain, scalar) * registers
    {
      PeakMeansRegisters(nodes, WordsPerValue(domain, scalar), peak.value, registers);
    }
    out := Analyzed(counts.direct, counts.uniform, counts.indexed, counts.writes, peak.value);
  }
}
