/** The hierarchical storage budget as a transition system over values
    (node/src/storage.cpp). A hierarchy is a tree of sites; every charge against
    it is a ticket. One step is one critical section of the hierarchy lock. */
module StorageModel {
  import opened Words

  datatype Reason =
    | Ok
    | BudgetInvalid
    | CapacityExceeded
    | ReservationInvalid
    | CommitInvalid

  datatype Usage = Usage(physicalBytes: u64, allocatedBytes: u64)

  const NO_USAGE := Usage(0, 0)

  datatype Site = Site(parent: Option<nat>, capacity: u64)

  datatype Counters = Counters(
    physicalBytes: u64, allocatedBytes: u64, reservedBytes: u64,
    peakPhysical: u64, peakAllocated: u64, peakReserved: u64, peakUsed: u64,
    reservations: u64, commits: u64, refunds: u64, rejections: u64)

  const FRESH := Counters(0, 0, 0, 0, 0, 0, 0, 0, 0, 0, 0)

  datatype Status =
    | Pending(max: u64)
    | Committed(max: u64, usage: Usage)
    | Released(committed: bool)

  /** One grant. It keeps its site after release, so that a site's operation
      counts remain a function of the tickets ever issued below it. */
  datatype Ticket = Ticket(site: nat, partitioned: bool, status: Status)

  datatype World = World(sites: seq<Site>, counters: seq<Counters>, tickets: seq<Ticket>)

  // ------------------------------------------------- one node, one state change

  datatype Change =
    | Rejecting
    | Reserving(bytes: u64)
    | Committing(bytes: u64, usage: Usage)
    | Refunding(bytes: u64, usage: Usage, committed: bool)

  function Increment(value: u64): (r: u64)
    ensures r == Min(value + 1, U64_MAX)
  {
    if value != U64_MAX then value + 1 else value
  }

  /** The loop bodies of Reject, Reserve, Commit and Refund; all sums wrap. */
  function Apply(c: Counters, change: Change): Counters {
    match change
    case Rejecting => c.(rejections := Increment(c.rejections))
    case Reserving(bytes) =>
      var reservedBytes := WrapAdd(c.reservedBytes, bytes);
      c.(reservedBytes := reservedBytes,
         peakReserved := Max(c.peakReserved, reservedBytes),
         peakUsed := Max(c.peakUsed, WrapAdd(reservedBytes, c.allocatedBytes)),
         reservations := Increment(c.reservations))
    case Committing(bytes, usage) =>
      var reservedBytes := WrapSub(c.reservedBytes, bytes);
      var allocatedBytes := WrapAdd(c.allocatedBytes, usage.allocatedBytes);
      var physicalBytes := WrapAdd(c.physicalBytes, usage.physicalBytes);
      c.(reservedBytes := reservedBytes, allocatedBytes := allocatedBytes, physicalBytes := physicalBytes,
         peakAllocated := Max(c.peakAllocated, allocatedBytes),
         peakPhysical := Max(c.peakPhysical, physicalBytes),
         peakUsed := Max(c.peakUsed, WrapAdd(reservedBytes, allocatedBytes)),
         commits := Increment(c.commits))
    case Refunding(bytes, usage, committed) =>
      (if committed then
         c.(allocatedBytes := WrapSub(c.allocatedBytes, usage.allocatedBytes),
               physicalBytes := WrapSub(c.physicalBytes, usage.physicalBytes))
       else
         c.(reservedBytes := WrapSub(c.reservedBytes, bytes)))
      .(refunds := Increment(c.refunds))
  }

  predicate AdmitsBytes(site: Site, c: Counters, bytes: u64) {
    if c.allocatedBytes > site.capacity || c.reservedBytes > site.capacity - c.allocatedBytes then false
    else bytes <= site.capacity - c.allocatedBytes - c.reservedBytes
  }

  predicate AdmitsUsage(c: Counters, usage: Usage) {
    && c.physicalBytes <= U64_MAX - usage.physicalBytes
    && c.allocatedBytes <= U64_MAX - usage.allocatedBytes
  }

  // ------------------------------------------------------------ parent chains

  ghost predicate TreeOk(sites: seq<Site>) {
    forall i :: 0 <= i < |sites| && sites[i].parent.Some? ==> sites[i].parent.value < i
  }

  /** Site i is `leaf` itself or one of its ancestors. */
  ghost predicate Under(sites: seq<Site>, leaf: nat, i: nat)
    requires TreeOk(sites) && leaf < |sites|
    decreases leaf
  {
    leaf == i || (sites[leaf].parent.Some? && Under(sites, sites[leaf].parent.value, i))
  }

  ghost predicate UnderOpt(sites: seq<Site>, leaf: Option<nat>, i: nat)
    requires TreeOk(sites) && (leaf.Some? ==> leaf.value < |sites|)
  {
    leaf.Some? && Under(sites, leaf.value, i)
  }

  ghost predicate Shaped(sites: seq<Site>, counters: seq<Counters>, at: Option<nat>) {
    TreeOk(sites) && |counters| == |sites| && (at.Some? ==> at.value < |sites|)
  }

  /** A change walked from a site through its root. */
  ghost function ApplyChain(sites: seq<Site>, counters: seq<Counters>, at: Option<nat>,
        change: Change): (r: seq<Counters>)
    requires Shaped(sites, counters, at)
    ensures |r| == |counters|
    decreases if at.Some? then at.value + 1 else 0
  {
    if at.None? then counters
    else ApplyChain(sites, counters[at.value := Apply(counters[at.value], change)], sites[at.value].parent, change)
  }

  ghost predicate ChainAdmitsBytes(sites: seq<Site>, counters: seq<Counters>, at: Option<nat>, bytes: u64)
    requires Shaped(sites, counters, at)
    decreases if at.Some? then at.value + 1 else 0
  {
    at.Some? ==>
      && AdmitsBytes(sites[at.value], counters[at.value], bytes)
      && ChainAdmitsBytes(sites, counters, sites[at.value].parent, bytes)
  }

  ghost predicate ChainAdmitsUsage(sites: seq<Site>, counters: seq<Counters>, at: Option<nat>, usage: Usage)
    requires Shaped(sites, counters, at)
    decreases if at.Some? then at.value + 1 else 0
  {
    at.Some? ==>
      && AdmitsUsage(counters[at.value], usage)
      && ChainAdmitsUsage(sites, counters, sites[at.value].parent, usage)
  }

  lemma {:induction false} UnderBounded(sites: seq<Site>, leaf: nat, i: nat)
    requires TreeOk(sites) && leaf < |sites| && Under(sites, leaf, i)
    ensures i <= leaf
    decreases leaf
  {
    if leaf != i {
      UnderBounded(sites, sites[leaf].parent.value, i);
    }
  }

  /** A walk changes every ancestor exactly once and nothing else. */
  lemma {:induction false} ApplyChainAt(sites: seq<Site>, counters: seq<Counters>, at: Option<nat>, change: Change,
        i: nat)
    requires Shaped(sites, counters, at) && i < |sites|
    ensures ApplyChain(sites, counters, at, change)[i]
         == if UnderOpt(sites, at, i) then Apply(counters[i], change) else counters[i]
    decreases if at.Some? then at.value + 1 else 0
  {
    if at.Some? {
      var parent := sites[at.value].parent;
      ApplyChainAt(sites, counters[at.value := Apply(counters[at.value], change)], parent, change, i);
      if i == at.value && parent.Some? && Under(sites, parent.value, i) {
        UnderBounded(sites, parent.value, i);
      }
    }
  }

  lemma {:induction false} ChainAdmitsBytesAt(sites: seq<Site>, counters: seq<Counters>, at: Option<nat>, bytes: u64)
    requires Shaped(sites, counters, at)
    ensures ChainAdmitsBytes(sites, counters, at, bytes)
       <==> forall i :: 0 <= i < |sites| && UnderOpt(sites, at, i) ==> AdmitsBytes(sites[i], counters[i], bytes)
    decreases if at.Some? then at.value + 1 else 0
  {
    if at.Some? {
      var parent := sites[at.value].parent;
      ChainAdmitsBytesAt(sites, counters, parent, bytes);
      forall i | 0 <= i < |sites|
        ensures UnderOpt(sites, at, i) <==> i == at.value || UnderOpt(sites, parent, i)
      {
      }
    }
  }

  lemma {:induction false} ChainAdmitsUsageAt(sites: seq<Site>, counters: seq<Counters>, at: Option<nat>, usage: Usage)
    requires Shaped(sites, counters, at)
    ensures ChainAdmitsUsage(sites, counters, at, usage)
       <==> forall i :: 0 <= i < |sites| && UnderOpt(sites, at, i) ==> AdmitsUsage(counters[i], usage)
    decreases if at.Some? then at.value + 1 else 0
  {
    if at.Some? {
      var parent := sites[at.value].parent;
      ChainAdmitsUsageAt(sites, counters, parent, usage);
      forall i | 0 <= i < |sites|
        ensures UnderOpt(sites, at, i) <==> i == at.value || UnderOpt(sites, parent, i)
      {
      }
    }
  }

  // -------------------------------------------------------------- transitions

  datatype Op =
    | Child(at: nat, capacity: u64)
    | Reserve(at: nat, bytes: u64)
    | Partition(ticket: nat, bytes: u64)
    | Commit(ticket: nat, usage: Usage)
    | Release(ticket: nat)

  datatype Outcome = Outcome(world: World, code: Reason)

  ghost predicate WellFormed(w: World) {
    && TreeOk(w.sites)
    && |w.counters| == |w.sites|
    && forall t :: 0 <= t < |w.tickets| ==> w.tickets[t].site < |w.sites|
  }

  ghost function Walk(w: World, at: nat, change: Change): seq<Counters>
    requires WellFormed(w) && at < |w.sites|
  {
    ApplyChain(w.sites, w.counters, Some(at), change)
  }

  /** The tickets with ticket t in a new status. */
  function Restated(tickets: seq<Ticket>, t: nat, status: Status): seq<Ticket>
    requires t < |tickets|
  {
    tickets[t := tickets[t].(status := status)]
  }

  ghost function Rejected(w: World, at: nat, code: Reason): Outcome
    requires WellFormed(w) && at < |w.sites|
  {
    Outcome(w.(counters := Walk(w, at, Rejecting)), code)
  }

  ghost function ChildStep(w: World, at: nat, capacity: u64): Outcome
    requires WellFormed(w)
  {
    if at >= |w.sites| || capacity == 0 || capacity > w.sites[at].capacity then Outcome(w, BudgetInvalid)
    else Outcome(w.(sites := w.sites + [Site(Some(at), capacity)], counters := w.counters + [FRESH]), Ok)
  }

  ghost function ReserveStep(w: World, at: nat, bytes: u64): Outcome
    requires WellFormed(w)
  {
    if at >= |w.sites| then Outcome(w, BudgetInvalid)
    else if !ChainAdmitsBytes(w.sites, w.counters, Some(at), bytes) then Rejected(w, at, CapacityExceeded)
    else Outcome(w.(counters := Walk(w, at, Reserving(bytes)),
                    tickets := w.tickets + [Ticket(at, false, Pending(bytes))]), Ok)
  }

  ghost function PartitionStep(w: World, t: nat, bytes: u64): Outcome
    requires WellFormed(w)
  {
    if t >= |w.tickets| || !w.tickets[t].status.Pending? then Outcome(w, ReservationInvalid)
    else
      var ticket := w.tickets[t];
      if bytes > ticket.status.max then Rejected(w, ticket.site, ReservationInvalid)
      else Outcome(w.(tickets := Restated(w.tickets, t, Pending(ticket.status.max - bytes))
                                 + [Ticket(ticket.site, true, Pending(bytes))]), Ok)
  }

  ghost function CommitStep(w: World, t: nat, usage: Usage): Outcome
    requires WellFormed(w)
  {
    if t >= |w.tickets| || !w.tickets[t].status.Pending? then Outcome(w, ReservationInvalid)
    else
      var ticket := w.tickets[t];
      var max := ticket.status.max;
      if usage.allocatedBytes > max || !ChainAdmitsUsage(w.sites, w.counters, Some(ticket.site), usage)
      then Rejected(w, ticket.site, CommitInvalid)
      else Outcome(w.(counters := Walk(w, ticket.site, Committing(max, usage)),
                      tickets := Restated(w.tickets, t, Committed(max, usage))), Ok)
  }

  ghost function ReleaseStep(w: World, t: nat): Outcome
    requires WellFormed(w)
  {
    if t >= |w.tickets| || w.tickets[t].status.Released? then Outcome(w, ReservationInvalid)
    else
      var ticket := w.tickets[t];
      var committed := ticket.status.Committed?;
      var usage := if committed then ticket.status.usage else NO_USAGE;
      Outcome(w.(counters := Walk(w, ticket.site, Refunding(ticket.status.max, usage, committed)),
                 tickets := Restated(w.tickets, t, Released(committed))), Ok)
  }

  ghost function Step(w: World, op: Op): Outcome
    requires WellFormed(w)
  {
    match op
    case Child(at, capacity) => ChildStep(w, at, capacity)
    case Reserve(at, bytes) => ReserveStep(w, at, bytes)
    case Partition(t, bytes) => PartitionStep(w, t, bytes)
    case Commit(t, usage) => CommitStep(w, t, usage)
    case Release(t) => ReleaseStep(w, t)
  }

  // ------------------------------------------------- what the tickets add up to

  datatype Measure = ReservedBytes | AllocatedBytes | PhysicalBytes | Grants | Partitions | Commits | Refunds | Live

  function Weight(t: Ticket, m: Measure): nat {
    match m
    case ReservedBytes => if t.status.Pending? then t.status.max else 0
    case AllocatedBytes => if t.status.Committed? then t.status.usage.allocatedBytes else 0
    case PhysicalBytes => if t.status.Committed? then t.status.usage.physicalBytes else 0
    case Grants => if t.partitioned then 0 else 1
    case Partitions => if t.partitioned then 1 else 0
    case Commits => if t.status.Committed? || t.status == Released(true) then 1 else 0
    case Refunds => if t.status.Released? then 1 else 0
    case Live => if t.status.Released? then 0 else 1
  }

  ghost predicate TicketsOk(sites: seq<Site>, tickets: seq<Ticket>) {
    TreeOk(sites) && forall t :: 0 <= t < |tickets| ==> tickets[t].site < |sites|
  }

  ghost function Share(sites: seq<Site>, t: Ticket, i: nat, m: Measure): nat
    requires TreeOk(sites) && t.site < |sites|
  {
    if Under(sites, t.site, i) then Weight(t, m) else 0
  }

  /** The sum of a measure over all tickets issued in the subtree of site i. */
  ghost function Total(sites: seq<Site>, tickets: seq<Ticket>, i: nat, m: Measure): nat
    requires TicketsOk(sites, tickets)
    decreases tickets
  {
    if tickets == [] then 0
    else
      var last := |tickets| - 1;
      Total(sites, tickets[..last], i, m) + Share(sites, tickets[last], i, m)
  }

  lemma TotalAppend(sites: seq<Site>, tickets: seq<Ticket>, t: Ticket, i: nat, m: Measure)
    requires TicketsOk(sites, tickets) && t.site < |sites|
    ensures Total(sites, tickets + [t], i, m) == Total(sites, tickets, i, m) + Share(sites, t, i, m)
  {
    assert (tickets + [t])[..|tickets|] == tickets;
  }

  lemma {:induction false} TotalUpdate(sites: seq<Site>, tickets: seq<Ticket>, k: nat, t: Ticket, i: nat, m: Measure)
    requires TicketsOk(sites, tickets) && k < |tickets| && t.site < |sites|
    ensures Total(sites, tickets[k := t], i, m)
         == Total(sites, tickets, i, m) + Share(sites, t, i, m) - Share(sites, tickets[k], i, m)
    decreases tickets
  {
    var last := |tickets| - 1;
    if k < last {
      TotalUpdate(sites, tickets[..last], k, t, i, m);
      assert tickets[k := t][..last] == tickets[..last][k := t];
    } else {
      assert tickets[k := t][..last] == tickets[..last];
    }
  }

  /** `grown` is the tree `sites` with one more site at the end. */
  ghost predicate Extends(grown: seq<Site>, sites: seq<Site>) {
    && TreeOk(sites) && TreeOk(grown)
    && |grown| == |sites| + 1
    && forall j :: 0 <= j < |sites| ==> grown[j] == sites[j]
  }

  lemma {:induction false} UnderGrows(grown: seq<Site>, sites: seq<Site>, leaf: nat, i: nat)
    requires Extends(grown, sites) && leaf < |sites|
    ensures Under(grown, leaf, i) <==> Under(sites, leaf, i)
    ensures i >= |sites| ==> !Under(sites, leaf, i)
    decreases leaf
  {
    if sites[leaf].parent.Some? {
      UnderGrows(grown, sites, sites[leaf].parent.value, i);
    }
  }

  lemma {:induction false} TotalGrows(grown: seq<Site>, sites: seq<Site>, tickets: seq<Ticket>, i: nat, m: Measure)
    requires Extends(grown, sites) && TicketsOk(sites, tickets)
    ensures Total(grown, tickets, i, m) == if i < |sites| then Total(sites, tickets, i, m) else 0
    decreases tickets
  {
    if tickets != [] {
      var last := |tickets| - 1;
      TotalGrows(grown, sites, tickets[..last], i, m);
      UnderGrows(grown, sites, tickets[last].site, i);
    }
  }

  /** The books of a site: what the tickets of its subtree amount to. */
  datatype Books = Books(
    reservedBytes: nat, allocatedBytes: nat, physicalBytes: nat,
    grants: nat, partitions: nat, commits: nat, refunds: nat)

  ghost function BooksOf(sites: seq<Site>, tickets: seq<Ticket>, i: nat): Books
    requires TicketsOk(sites, tickets)
  {
    Books(Total(sites, tickets, i, ReservedBytes),
          Total(sites, tickets, i, AllocatedBytes),
          Total(sites, tickets, i, PhysicalBytes),
          Total(sites, tickets, i, Grants),
          Total(sites, tickets, i, Partitions),
          Total(sites, tickets, i, Measure.Commits),
          Total(sites, tickets, i, Refunds))
  }

  function Posting(t: Ticket): Books {
    Books(Weight(t, ReservedBytes), Weight(t, AllocatedBytes), Weight(t, PhysicalBytes),
          Weight(t, Grants), Weight(t, Partitions), Weight(t, Measure.Commits), Weight(t, Refunds))
  }

  /** b' is b with one posting taken out and another put in. */
  predicate Moved(b: Books, gone: Books, came: Books, b': Books) {
    && b'.reservedBytes == b.reservedBytes + came.reservedBytes - gone.reservedBytes
    && b'.allocatedBytes == b.allocatedBytes + came.allocatedBytes - gone.allocatedBytes
    && b'.physicalBytes == b.physicalBytes + came.physicalBytes - gone.physicalBytes
    && b'.grants == b.grants + came.grants - gone.grants
    && b'.partitions == b.partitions + came.partitions - gone.partitions
    && b'.commits == b.commits + came.commits - gone.commits
    && b'.refunds == b.refunds + came.refunds - gone.refunds
  }

  lemma BooksUpdate(sites: seq<Site>, tickets: seq<Ticket>, k: nat, t: Ticket, i: nat)
    requires TicketsOk(sites, tickets) && k < |tickets| && t.site == tickets[k].site
    ensures var b, b' := BooksOf(sites, tickets, i), BooksOf(sites, tickets[k := t], i);
            if Under(sites, t.site, i) then Moved(b, Posting(tickets[k]), Posting(t), b') else b' == b
  {
    forall m: Measure | true
      ensures Total(sites, tickets[k := t], i, m)
           == Total(sites, tickets, i, m) + Share(sites, t, i, m) - Share(sites, tickets[k], i, m)
    {
      TotalUpdate(sites, tickets, k, t, i, m);
    }
  }

  lemma BooksAppend(sites: seq<Site>, tickets: seq<Ticket>, t: Ticket, i: nat)
    requires TicketsOk(sites, tickets) && t.site < |sites|
    ensures var b, b' := BooksOf(sites, tickets, i), BooksOf(sites, tickets + [t], i);
            if Under(sites, t.site, i) then Moved(b, Books(0, 0, 0, 0, 0, 0, 0), Posting(t), b') else b' == b
  {
    forall m: Measure | true
      ensures Total(sites, tickets + [t], i, m) == Total(sites, tickets, i, m) + Share(sites, t, i, m)
    {
      TotalAppend(sites, tickets, t, i, m);
    }
  }

  lemma BooksGrow(grown: seq<Site>, sites: seq<Site>, tickets: seq<Ticket>, i: nat)
    requires Extends(grown, sites) && TicketsOk(sites, tickets)
    ensures BooksOf(grown, tickets, i)
         == if i < |sites| then BooksOf(sites, tickets, i) else Books(0, 0, 0, 0, 0, 0, 0)
  {
    forall m: Measure | true
      ensures Total(grown, tickets, i, m) == if i < |sites| then Total(sites, tickets, i, m) else 0
    {
      TotalGrows(grown, sites, tickets, i, m);
    }
  }

  // ---------------------------------------------------------------- invariant

  function Saturated(n: nat): u64 {
    Min(n, U64_MAX)
  }

  /** Counters that show exactly these books, stay within capacity, and whose
      peaks dominate what they track. */
  predicate Agrees(c: Counters, b: Books, capacity: u64) {
    && c.reservedBytes == b.reservedBytes
    && c.allocatedBytes == b.allocatedBytes
    && c.physicalBytes == b.physicalBytes
    && c.reservations == Saturated(b.grants)
    && c.commits == Saturated(b.commits)
    && c.refunds == Saturated(b.refunds)
    && c.allocatedBytes + c.reservedBytes <= capacity
    && c.physicalBytes <= c.peakPhysical
    && c.allocatedBytes <= c.peakAllocated
    && c.reservedBytes <= c.peakReserved
    && c.allocatedBytes + c.reservedBytes <= c.peakUsed
  }

  ghost predicate Balanced(w: World, i: nat)
    requires WellFormed(w) && i < |w.sites|
  {
    Agrees(w.counters[i], BooksOf(w.sites, w.tickets, i), w.sites[i].capacity)
  }

  ghost predicate Invariant(w: World) {
    WellFormed(w) && forall i :: 0 <= i < |w.sites| ==> Balanced(w, i)
  }

  // The change each operation makes at one ancestor.

  lemma ReservingAgrees(c: Counters, b: Books, capacity: u64, t: Ticket, b': Books)
    requires Agrees(c, b, capacity) && t.status.Pending? && !t.partitioned
    requires c.allocatedBytes + c.reservedBytes + t.status.max <= capacity
    requires Moved(b, Books(0, 0, 0, 0, 0, 0, 0), Posting(t), b')
    ensures Agrees(Apply(c, Reserving(t.status.max)), b', capacity)
  {
  }

  lemma PartitioningAgrees(c: Counters, b: Books, capacity: u64, whole: Ticket, rest: Ticket, part: Ticket,
        mid: Books, b': Books)
    requires Agrees(c, b, capacity)
    requires whole.status.Pending? && rest.status.Pending? && part.status.Pending?
    requires whole.partitioned == rest.partitioned && part.partitioned
    requires rest.status.max + part.status.max == whole.status.max
    requires Moved(b, Posting(whole), Posting(rest), mid)
    requires Moved(mid, Books(0, 0, 0, 0, 0, 0, 0), Posting(part), b')
    ensures Agrees(c, b', capacity)
  {
  }

  lemma CommittingAgrees(c: Counters, b: Books, capacity: u64, t: Ticket, done: Ticket, b': Books)
    requires Agrees(c, b, capacity) && t.status.Pending? && done.status.Committed?
    requires t.partitioned == done.partitioned && done.status.max == t.status.max
    requires done.status.usage.allocatedBytes <= t.status.max && AdmitsUsage(c, done.status.usage)
    requires Moved(b, Posting(t), Posting(done), b')
    ensures Agrees(Apply(c, Committing(t.status.max, done.status.usage)), b', capacity)
  {
  }

  lemma RefundingAgrees(c: Counters, b: Books, capacity: u64, t: Ticket, gone: Ticket, usage: Usage, b': Books)
    requires Agrees(c, b, capacity) && !t.status.Released? && t.partitioned == gone.partitioned
    requires gone.status == Released(t.status.Committed?)
    requires t.status.Committed? ==> usage == t.status.usage
    requires Moved(b, Posting(t), Posting(gone), b')
    ensures Agrees(Apply(c, Refunding(t.status.max, usage, t.status.Committed?)), b', capacity)
  {
  }

  lemma ChildKeepsBalance(w: World, at: nat, capacity: u64, i: nat)
    requires Invariant(w) && ChildStep(w, at, capacity).code == Ok && i <= |w.sites|
    ensures Balanced(ChildStep(w, at, capacity).world, i)
  {
    BooksGrow(w.sites + [Site(Some(at), capacity)], w.sites, w.tickets, i);
    if i < |w.sites| {
      assert Balanced(w, i);
    }
  }

  lemma ReserveKeepsBalance(w: World, at: nat, bytes: u64, i: nat)
    requires Invariant(w) && i < |w.sites|
    requires ReserveStep(w, at, bytes).code == Ok
    ensures Balanced(ReserveStep(w, at, bytes).world, i)
  {
    assert Balanced(w, i);
    var ticket := Ticket(at, false, Pending(bytes));
    BooksAppend(w.sites, w.tickets, ticket, i);
    ApplyChainAt(w.sites, w.counters, Some(at), Reserving(bytes), i);
    ChainAdmitsBytesAt(w.sites, w.counters, Some(at), bytes);
    if Under(w.sites, at, i) {
      assert AdmitsBytes(w.sites[i], w.counters[i], bytes);
      ReservingAgrees(w.counters[i], BooksOf(w.sites, w.tickets, i), w.sites[i].capacity, ticket,
                      BooksOf(w.sites, w.tickets + [ticket], i));
    }
  }

  lemma PartitionKeepsBalance(w: World, t: nat, bytes: u64, i: nat)
    requires Invariant(w) && i < |w.sites|
    requires PartitionStep(w, t, bytes).code == Ok
    ensures Balanced(PartitionStep(w, t, bytes).world, i)
  {
    assert Balanced(w, i);
    var ticket := w.tickets[t];
    var rest := ticket.(status := Pending(ticket.status.max - bytes));
    var part := Ticket(ticket.site, true, Pending(bytes));
    var mid := w.tickets[t := rest];
    BooksUpdate(w.sites, w.tickets, t, rest, i);
    BooksAppend(w.sites, mid, part, i);
    if Under(w.sites, ticket.site, i) {
      PartitioningAgrees(w.counters[i], BooksOf(w.sites, w.tickets, i), w.sites[i].capacity, ticket, rest, part,
                         BooksOf(w.sites, mid, i), BooksOf(w.sites, mid + [part], i));
    }
  }

  lemma CommitKeepsBalance(w: World, t: nat, usage: Usage, i: nat)
    requires Invariant(w) && i < |w.sites|
    requires CommitStep(w, t, usage).code == Ok
    ensures Balanced(CommitStep(w, t, usage).world, i)
  {
    assert Balanced(w, i);
    var ticket := w.tickets[t];
    var done := ticket.(status := Committed(ticket.status.max, usage));
    BooksUpdate(w.sites, w.tickets, t, done, i);
    ApplyChainAt(w.sites, w.counters, Some(ticket.site), Committing(ticket.status.max, usage), i);
    ChainAdmitsUsageAt(w.sites, w.counters, Some(ticket.site), usage);
    if Under(w.sites, ticket.site, i) {
      assert AdmitsUsage(w.counters[i], usage);
      CommittingAgrees(w.counters[i], BooksOf(w.sites, w.tickets, i), w.sites[i].capacity, ticket, done,
                       BooksOf(w.sites, w.tickets[t := done], i));
    }
  }

  lemma ReleaseKeepsBalance(w: World, t: nat, i: nat)
    requires Invariant(w) && i < |w.sites|
    requires ReleaseStep(w, t).code == Ok
    ensures Balanced(ReleaseStep(w, t).world, i)
  {
    assert Balanced(w, i);
    var ticket := w.tickets[t];
    var committed := ticket.status.Committed?;
    var usage := if committed then ticket.status.usage else NO_USAGE;
    var gone := ticket.(status := Released(committed));
    BooksUpdate(w.sites, w.tickets, t, gone, i);
    ApplyChainAt(w.sites, w.counters, Some(ticket.site), Refunding(ticket.status.max, usage, committed), i);
    if Under(w.sites, ticket.site, i) {
      RefundingAgrees(w.counters[i], BooksOf(w.sites, w.tickets, i), w.sites[i].capacity, ticket, gone, usage,
                      BooksOf(w.sites, w.tickets[t := gone], i));
    }
  }

  lemma StepKeepsBalance(w: World, op: Op, i: nat)
    requires Invariant(w) && Step(w, op).code == Ok && i < |Step(w, op).world.sites|
    ensures WellFormed(Step(w, op).world) && Balanced(Step(w, op).world, i)
  {
    match op
    case Child(at, capacity) => ChildKeepsBalance(w, at, capacity, i);
    case Reserve(at, bytes) => ReserveKeepsBalance(w, at, bytes, i);
    case Partition(t, bytes) => PartitionKeepsBalance(w, t, bytes, i);
    case Commit(t, usage) => CommitKeepsBalance(w, t, usage, i);
    case Release(t) => ReleaseKeepsBalance(w, t, i);
  }

  /** The site whose chain an operation walks, if the operation gets that far. */
  ghost function SiteOf(w: World, op: Op): Option<nat>
    requires WellFormed(w)
    ensures var at := SiteOf(w, op); at.Some? ==> at.value < |w.sites|
  {
    match op
    case Child(_, _) => None
    case Reserve(at, _) => if at < |w.sites| then Some(at) else None
    case Partition(t, _) => if t < |w.tickets| && w.tickets[t].status.Pending? then Some(w.tickets[t].site) else None
    case Commit(t, _) => if t < |w.tickets| && w.tickets[t].status.Pending? then Some(w.tickets[t].site) else None
    case Release(t) => None
  }

  /** A refused operation changes nothing but the rejection counts along one
      chain; a refusal that never reaches a site changes nothing at all. */
  lemma RefusalChangesOnlyRejections(w: World, op: Op)
    requires WellFormed(w) && Step(w, op).code != Ok
    ensures Step(w, op).world.sites == w.sites && Step(w, op).world.tickets == w.tickets
    ensures forall i :: 0 <= i < |w.sites| ==>
              Step(w, op).world.counters[i]
              == if UnderOpt(w.sites, SiteOf(w, op), i)
                 then w.counters[i].(rejections := Saturated(w.counters[i].rejections + 1))
                 else w.counters[i]
  {
    var at := SiteOf(w, op);
    if at.Some? {
      forall i | 0 <= i < |w.sites|
        ensures Walk(w, at.value, Rejecting)[i]
             == if UnderOpt(w.sites, at, i) then Apply(w.counters[i], Rejecting) else w.counters[i]
      {
        ApplyChainAt(w.sites, w.counters, at, Rejecting, i);
      }
    }
  }

  /** Every step of every operation keeps the books. */
  lemma StepKeepsInvariant(w: World, op: Op)
    requires Invariant(w)
    ensures Invariant(Step(w, op).world)
  {
    if Step(w, op).code == Ok {
      forall i | 0 <= i < |Step(w, op).world.sites|
        ensures Balanced(Step(w, op).world, i)
      {
        StepKeepsBalance(w, op, i);
      }
      StepWellFormed(w, op);
    } else {
      RefusalChangesOnlyRejections(w, op);
      forall i | 0 <= i < |w.sites|
        ensures Balanced(Step(w, op).world, i)
      {
        assert Balanced(w, i);
      }
    }
  }

  lemma StepWellFormed(w: World, op: Op)
    requires WellFormed(w)
    ensures WellFormed(Step(w, op).world)
  {
  }

  // ------------------------------------------------------- when an operation is admitted

  /** A reservation is granted exactly when, at the site and at each of its
      ancestors, outstanding and committed charges leave room for it. */
  lemma ReserveAdmission(w: World, at: nat, bytes: u64)
    requires Invariant(w) && at < |w.sites|
    ensures ReserveStep(w, at, bytes).code == Ok
       <==> forall i :: 0 <= i < |w.sites| && Under(w.sites, at, i) ==>
              Total(w.sites, w.tickets, i, ReservedBytes) + Total(w.sites, w.tickets, i, AllocatedBytes) + bytes
              <= w.sites[i].capacity
  {
    ChainAdmitsBytesAt(w.sites, w.counters, Some(at), bytes);
    forall i | 0 <= i < |w.sites|
      ensures AdmitsBytes(w.sites[i], w.counters[i], bytes)
         <==> Total(w.sites, w.tickets, i, ReservedBytes) + Total(w.sites, w.tickets, i, AllocatedBytes) + bytes
              <= w.sites[i].capacity
    {
      assert Balanced(w, i);
    }
  }

  /** The byte measures of a ticket are part of the total of each ancestor. */
  lemma ShareWithinTotal(sites: seq<Site>, tickets: seq<Ticket>, k: nat, i: nat, m: Measure)
    requires TicketsOk(sites, tickets) && k < |tickets|
    requires m in {ReservedBytes, AllocatedBytes, PhysicalBytes}
    ensures Share(sites, tickets[k], i, m) <= Total(sites, tickets, i, m)
  {
    TotalUpdate(sites, tickets, k, tickets[k].(status := Released(false)), i, m);
  }

  ghost predicate PhysicalFits(w: World, i: nat, usage: Usage)
    requires WellFormed(w)
  {
    Total(w.sites, w.tickets, i, PhysicalBytes) + usage.physicalBytes <= U64_MAX
  }

  ghost predicate PhysicalFitsAbove(w: World, site: nat, usage: Usage)
    requires WellFormed(w) && site < |w.sites|
  {
    forall i :: 0 <= i < |w.sites| && Under(w.sites, site, i) ==> PhysicalFits(w, i, usage)
  }

  /** A commit is accepted exactly when it fits its own ticket and the physical
      sum of no ancestor overflows: the capacity was settled by the reservation. */
  lemma CommitAdmission(w: World, t: nat, usage: Usage)
    requires Invariant(w) && t < |w.tickets| && w.tickets[t].status.Pending?
    ensures CommitStep(w, t, usage).code == Ok
       <==> usage.allocatedBytes <= w.tickets[t].status.max && PhysicalFitsAbove(w, w.tickets[t].site, usage)
  {
    var site, max := w.tickets[t].site, w.tickets[t].status.max;
    ChainAdmitsUsageAt(w.sites, w.counters, Some(site), usage);
    forall i | 0 <= i < |w.sites| && Under(w.sites, site, i)
      ensures usage.allocatedBytes <= max ==>
                (AdmitsUsage(w.counters[i], usage) <==> PhysicalFits(w, i, usage))
    {
      assert Balanced(w, i);
      ShareWithinTotal(w.sites, w.tickets, t, i, ReservedBytes);
    }
    if usage.allocatedBytes <= max {
      if i :| 0 <= i < |w.sites| && UnderOpt(w.sites, Some(site), i) && !AdmitsUsage(w.counters[i], usage) {
        assert Under(w.sites, site, i) && !PhysicalFits(w, i, usage);
      }
      if i :| 0 <= i < |w.sites| && Under(w.sites, site, i) && !PhysicalFits(w, i, usage) {
        assert UnderOpt(w.sites, Some(site), i) && !AdmitsUsage(w.counters[i], usage);
      }
    }
  }

  /** A child is accepted exactly when its parent exists and can hold it; it is a new
      site under that parent with the capacity asked for, and nothing is charged. */
  lemma ChildAdmission(w: World, at: nat, capacity: u64)
    requires WellFormed(w)
    ensures ChildStep(w, at, capacity).code == Ok
       <==> at < |w.sites| && 0 < capacity <= w.sites[at].capacity
    ensures ChildStep(w, at, capacity).code == Ok ==>
              var w' := ChildStep(w, at, capacity).world;
              && |w'.sites| == |w.sites| + 1 == |w'.counters| && w.sites <= w'.sites && w.counters <= w'.counters
              && w'.sites[|w.sites|].parent == Some(at) && w'.sites[|w.sites|].capacity == capacity
              && w'.counters[|w.sites|] == FRESH && w'.tickets == w.tickets
  {
  }

  /** Part of a pending ticket is given away exactly when the ticket has that much. The
      part then weighs what was asked for, the ticket that much less, and each of them
      can commit only what it weighs. */
  lemma PartitionAdmission(w: World, t: nat, bytes: u64)
    requires Invariant(w) && t < |w.tickets| && w.tickets[t].status.Pending?
    ensures PartitionStep(w, t, bytes).code == Ok <==> bytes <= Weight(w.tickets[t], ReservedBytes)
    ensures PartitionStep(w, t, bytes).code == Ok ==>
              var w', part := PartitionStep(w, t, bytes).world, |w.tickets|;
              && w'.sites == w.sites && w'.counters == w.counters && |w'.tickets| == part + 1
              && (forall k :: 0 <= k < part && k != t ==> w'.tickets[k] == w.tickets[k])
              && w'.tickets[part].site == w'.tickets[t].site == w.tickets[t].site
              && Weight(w'.tickets[part], ReservedBytes) == bytes
              && Weight(w'.tickets[t], ReservedBytes) == Weight(w.tickets[t], ReservedBytes) - bytes
    ensures PartitionStep(w, t, bytes).code == Ok ==>
              var w', part := PartitionStep(w, t, bytes).world, |w.tickets|;
              && WellFormed(w') && CommitsUpTo(w', part, w.tickets[t].site, bytes)
              && CommitsUpTo(w', t, w.tickets[t].site, Weight(w.tickets[t], ReservedBytes) - bytes)
  {
    var w', part := PartitionStep(w, t, bytes).world, |w.tickets|;
    if PartitionStep(w, t, bytes).code == Ok {
      StepKeepsInvariant(w, Partition(t, bytes));
      PendingCommitsUpTo(w', part);
      PendingCommitsUpTo(w', t);
    }
  }

  /** Ticket t commits any usage of at most so many bytes whose physical bytes fit. */
  ghost predicate CommitsUpTo(w: World, t: nat, site: nat, bytes: int)
    requires WellFormed(w) && site < |w.sites|
  {
    forall usage: Usage ::
      CommitStep(w, t, usage).code == Ok <==> usage.allocatedBytes <= bytes && PhysicalFitsAbove(w, site, usage)
  }

  lemma PendingCommitsUpTo(w: World, t: nat)
    requires Invariant(w) && t < |w.tickets| && w.tickets[t].status.Pending?
    ensures CommitsUpTo(w, t, w.tickets[t].site, w.tickets[t].status.max)
  {
    forall usage: Usage | true
      ensures CommitStep(w, t, usage).code == Ok
         <==> usage.allocatedBytes <= w.tickets[t].status.max && PhysicalFitsAbove(w, w.tickets[t].site, usage)
    {
      CommitAdmission(w, t, usage);
    }
  }

  // --------------------------------------------------------- no counter ever wraps

  /** The sums and differences of `Apply` are exact. */
  predicate NoWrap(c: Counters, change: Change) {
    match change
    case Rejecting => true
    case Reserving(bytes) => c.reservedBytes + bytes + c.allocatedBytes <= U64_MAX
    case Committing(bytes, usage) =>
      && bytes <= c.reservedBytes
      && c.reservedBytes - bytes + c.allocatedBytes + usage.allocatedBytes <= U64_MAX
      && c.physicalBytes + usage.physicalBytes <= U64_MAX
    case Refunding(bytes, usage, committed) =>
      if committed then usage.allocatedBytes <= c.allocatedBytes && usage.physicalBytes <= c.physicalBytes
      else bytes <= c.reservedBytes
  }

  /** The site an accepted operation walks from, and the change it makes. */
  ghost function Effect(w: World, op: Op): Option<(nat, Change)>
    requires WellFormed(w) && Step(w, op).code == Ok
    ensures var e := Effect(w, op); e.Some? ==> e.value.0 < |w.sites|
  {
    match op
    case Child(_, _) => None
    case Reserve(at, bytes) => Some((at, Reserving(bytes)))
    case Partition(_, _) => None
    case Commit(t, usage) => Some((w.tickets[t].site, Committing(w.tickets[t].status.max, usage)))
    case Release(t) =>
      var status := w.tickets[t].status;
      Some((w.tickets[t].site,
            Refunding(status.max, if status.Committed? then status.usage else NO_USAGE, status.Committed?)))
  }

  /** An accepted operation makes its one change at every ancestor, leaves every
      other site alone, and none of its arithmetic wraps. */
  lemma StepIsExact(w: World, op: Op, i: nat)
    requires Invariant(w) && Step(w, op).code == Ok && i < |w.sites|
    ensures var e := Effect(w, op);
            if e.Some? && Under(w.sites, e.value.0, i)
            then Step(w, op).world.counters[i] == Apply(w.counters[i], e.value.1) && NoWrap(w.counters[i], e.value.1)
            else Step(w, op).world.counters[i] == w.counters[i]
  {
    assert Balanced(w, i);
    var e := Effect(w, op);
    if e.Some? {
      ApplyChainAt(w.sites, w.counters, Some(e.value.0), e.value.1, i);
      if Under(w.sites, e.value.0, i) {
        match op
        case Reserve(at, bytes) =>
          ChainAdmitsBytesAt(w.sites, w.counters, Some(at), bytes);
          assert AdmitsBytes(w.sites[i], w.counters[i], bytes);
        case Commit(t, usage) =>
          ChainAdmitsUsageAt(w.sites, w.counters, Some(w.tickets[t].site), usage);
          assert AdmitsUsage(w.counters[i], usage);
          ShareWithinTotal(w.sites, w.tickets, t, i, ReservedBytes);
        case Release(t) =>
          ShareWithinTotal(w.sites, w.tickets, t, i, ReservedBytes);
          ShareWithinTotal(w.sites, w.tickets, t, i, AllocatedBytes);
          ShareWithinTotal(w.sites, w.tickets, t, i, PhysicalBytes);
      }
    }
  }

  // ------------------------------------------------------------------- whole runs

  function Start(capacity: u64): World
    requires capacity > 0
  {
    World([Site(None, capacity)], [FRESH], [])
  }

  ghost function Run(capacity: u64, ops: seq<Op>): (w: World)
    requires capacity > 0
    ensures WellFormed(w)
    decreases ops
  {
    if ops == [] then Start(capacity)
    else
      var before := Run(capacity, ops[..|ops| - 1]);
      StepWellFormed(before, ops[|ops| - 1]);
      Step(before, ops[|ops| - 1]).world
  }

  /** Whatever the hierarchy and whatever the order of its operations, the
      counters of every site are the sums over the tickets of its subtree, and
      no site is over capacity. */
  lemma {:induction false} EveryRunBalances(capacity: u64, ops: seq<Op>)
    requires capacity > 0
    ensures Invariant(Run(capacity, ops))
    decreases ops
  {
    if ops == [] {
      assert Balanced(Start(capacity), 0);
    } else {
      EveryRunBalances(capacity, ops[..|ops| - 1]);
      StepKeepsInvariant(Run(capacity, ops[..|ops| - 1]), ops[|ops| - 1]);
    }
  }

  lemma RunStep(capacity: u64, ops: seq<Op>, op: Op)
    requires capacity > 0
    ensures Run(capacity, ops + [op]) == Step(Run(capacity, ops), op).world
  {
    assert (ops + [op])[..|ops|] == ops;
  }

  lemma {:induction false} SitesStay(capacity: u64, ops: seq<Op>, k: nat)
    requires capacity > 0 && k <= |ops|
    ensures Run(capacity, ops[..k]).sites <= Run(capacity, ops).sites
    decreases ops
  {
    if k == |ops| {
      assert ops[..k] == ops;
    } else {
      SitesStay(capacity, ops[..|ops| - 1], k);
      assert ops[..|ops| - 1][..k] == ops[..k];
    }
  }

  /** In every run, what an accepted child was asked to hold bounds what is charged
      below it ever after, wherever it hangs. */
  lemma ChildKeepsItsCapacity(capacity: u64, ops: seq<Op>, k: nat)
    requires capacity > 0 && k < |ops| && ops[k].Child?
    requires ChildStep(Run(capacity, ops[..k]), ops[k].at, ops[k].capacity).code == Ok
    ensures var w, site := Run(capacity, ops), |Run(capacity, ops[..k]).sites|;
            && site < |w.sites| && w.sites[site].parent == Some(ops[k].at)
            && w.sites[site].capacity == ops[k].capacity
            && Total(w.sites, w.tickets, site, ReservedBytes) + Total(w.sites, w.tickets, site, AllocatedBytes)
               <= ops[k].capacity
  {
    var w, site := Run(capacity, ops), |Run(capacity, ops[..k]).sites|;
    RunStep(capacity, ops[..k], ops[k]);
    assert ops[..k + 1] == ops[..k] + [ops[k]];
    ChildAdmission(Run(capacity, ops[..k]), ops[k].at, ops[k].capacity);
    SitesStay(capacity, ops, k + 1);
    EveryRunBalances(capacity, ops);
    assert Balanced(w, site);
  }

  // ------------------------------------------------------------- each handle's journal

  /** What the accepted operations of a run say of one ticket: the bytes it was created
      with, the bytes given to parts of it, its usage, and whether it was released. */
  datatype Journal = Journal(asked: nat, given: nat, used: Option<Usage>, closed: bool)

  /** The journal of ticket t after one more operation. */
  ghost function Noted(w: World, op: Op, t: nat, j: Journal): Journal
    requires WellFormed(w)
  {
    if Step(w, op).code != Ok then j
    else
      match op
      case Child(_, _) => j
      case Reserve(_, bytes) => if t == |w.tickets| then Journal(bytes, 0, None, false) else j
      case Partition(from, bytes) =>
        if t == |w.tickets| then Journal(bytes, 0, None, false)
        else if t == from then j.(given := j.given + bytes)
        else j
      case Commit(at, usage) => if t == at then j.(used := Some(usage)) else j
      case Release(at) => if t == at then j.(closed := true) else j
  }

  ghost function JournalOf(capacity: u64, ops: seq<Op>, t: nat): Journal
    requires capacity > 0
    decreases ops
  {
    if ops == [] then Journal(0, 0, None, false)
    else
      var earlier := ops[..|ops| - 1];
      Noted(Run(capacity, earlier), ops[|ops| - 1], t, JournalOf(capacity, earlier, t))
  }

  /** What it was created with less what was given away is pending, or its usage is
      committed, or it is released. */
  predicate Tells(j: Journal, status: Status) {
    match status
    case Pending(max) => !j.closed && j.used.None? && max + j.given == j.asked
    case Committed(max, usage) => !j.closed && j.used == Some(usage) && max + j.given == j.asked
    case Released(committed) => j.closed && committed == j.used.Some?
  }

  lemma StepKeepsJournal(w: World, op: Op, t: nat, j: Journal)
    requires WellFormed(w) && t < |Step(w, op).world.tickets|
    requires t < |w.tickets| ==> Tells(j, w.tickets[t].status)
    ensures Tells(Noted(w, op, t, j), Step(w, op).world.tickets[t].status)
  {
    hide Walk;
    hide ChainAdmitsBytes;
    hide ChainAdmitsUsage;
    hide TreeOk;
  }

  /** Every handle is what its journal tells, whatever was done to the others. */
  lemma {:induction false} HandleIsItsJournal(capacity: u64, ops: seq<Op>, t: nat)
    requires capacity > 0 && t < |Run(capacity, ops).tickets|
    ensures Tells(JournalOf(capacity, ops, t), Run(capacity, ops).tickets[t].status)
    decreases ops
  {
    hide Tells;
    hide Noted;
    hide Step;
    if ops != [] {
      var earlier := ops[..|ops| - 1];
      if t < |Run(capacity, earlier).tickets| {
        HandleIsItsJournal(capacity, earlier, t);
      }
      StepKeepsJournal(Run(capacity, earlier), ops[|ops| - 1], t, JournalOf(capacity, earlier, t));
    }
  }

  lemma {:induction false} NothingLiveTotalsNothing(sites: seq<Site>, tickets: seq<Ticket>, i: nat, m: Measure)
    requires TicketsOk(sites, tickets) && m in {ReservedBytes, AllocatedBytes, PhysicalBytes}
    requires forall t :: 0 <= t < |tickets| && Under(sites, tickets[t].site, i) ==> tickets[t].status.Released?
    ensures Total(sites, tickets, i, m) == 0
    decreases tickets
  {
    if tickets != [] {
      NothingLiveTotalsNothing(sites, tickets[..|tickets| - 1], i, m);
    }
  }

  lemma EmptySite(w: World, i: nat)
    requires Invariant(w) && i < |w.sites|
    requires forall t :: 0 <= t < |w.tickets| && Under(w.sites, w.tickets[t].site, i) ==> w.tickets[t].status.Released?
    ensures w.counters[i].reservedBytes == w.counters[i].allocatedBytes == w.counters[i].physicalBytes == 0
  {
    assert Balanced(w, i);
    NothingLiveTotalsNothing(w.sites, w.tickets, i, ReservedBytes);
    NothingLiveTotalsNothing(w.sites, w.tickets, i, AllocatedBytes);
    NothingLiveTotalsNothing(w.sites, w.tickets, i, PhysicalBytes);
  }

  /** Once every ticket of a subtree is gone, its site is charged nothing. */
  lemma DrainedSiteIsEmpty(capacity: u64, ops: seq<Op>, i: nat)
    requires capacity > 0 && i < |Run(capacity, ops).sites|
    requires var w := Run(capacity, ops);
             forall t :: 0 <= t < |w.tickets| && Under(w.sites, w.tickets[t].site, i) ==> w.tickets[t].status.Released?
    ensures var c := Run(capacity, ops).counters[i];
            c.reservedBytes == 0 && c.allocatedBytes == 0 && c.physicalBytes == 0
  {
    EveryRunBalances(capacity, ops);
    EmptySite(Run(capacity, ops), i);
  }

  // ------------------------------------------------------------------------ peaks

  datatype Gauge = Physical | Allocated | Reserved | Used

  function Reading(c: Counters, g: Gauge): nat {
    match g
    case Physical => c.physicalBytes
    case Allocated => c.allocatedBytes
    case Reserved => c.reservedBytes
    case Used => c.allocatedBytes + c.reservedBytes
  }

  function PeakOf(c: Counters, g: Gauge): nat {
    match g
    case Physical => c.peakPhysical
    case Allocated => c.peakAllocated
    case Reserved => c.peakReserved
    case Used => c.peakUsed
  }

  /** The highest reading a site has shown after any prefix of a run. */
  ghost function Highest(capacity: u64, ops: seq<Op>, i: nat, g: Gauge): nat
    requires capacity > 0
    decreases ops
  {
    var w := Run(capacity, ops);
    var now := if i < |w.sites| then Reading(w.counters[i], g) else 0;
    if ops == [] then now else Max(now, Highest(capacity, ops[..|ops| - 1], i, g))
  }

  lemma WrapExact(a: u64, b: u64)
    ensures a + b <= U64_MAX ==> WrapAdd(a, b) == a + b
    ensures b <= a ==> WrapSub(a, b) == a - b
  {
  }

  lemma CommitRaisesPeaks(c: Counters, bytes: u64, usage: Usage, g: Gauge)
    requires NoWrap(c, Committing(bytes, usage))
    requires Reading(c, Reserved) <= c.peakReserved
    ensures PeakOf(Apply(c, Committing(bytes, usage)), g)
         == Max(Reading(Apply(c, Committing(bytes, usage)), g), PeakOf(c, g))
  {
    WrapExact(c.reservedBytes, bytes);
    WrapExact(c.allocatedBytes, usage.allocatedBytes);
    WrapExact(c.physicalBytes, usage.physicalBytes);
    WrapExact(c.reservedBytes - bytes, c.allocatedBytes + usage.allocatedBytes);
  }

  lemma ApplyRaisesPeaks(c: Counters, change: Change, g: Gauge)
    requires NoWrap(c, change)
    requires Reading(c, Physical) <= c.peakPhysical && Reading(c, Allocated) <= c.peakAllocated
    requires Reading(c, Reserved) <= c.peakReserved && Reading(c, Used) <= c.peakUsed
    ensures PeakOf(Apply(c, change), g) == Max(Reading(Apply(c, change), g), PeakOf(c, g))
  {
    match change
    case Rejecting =>
    case Reserving(bytes) =>
      WrapExact(c.reservedBytes, bytes);
      WrapExact(c.reservedBytes + bytes, c.allocatedBytes);
    case Committing(bytes, usage) =>
      CommitRaisesPeaks(c, bytes, usage, g);
    case Refunding(bytes, usage, committed) =>
      if committed {
        WrapExact(c.allocatedBytes, usage.allocatedBytes);
        WrapExact(c.physicalBytes, usage.physicalBytes);
      } else {
        WrapExact(c.reservedBytes, bytes);
      }
  }

  lemma StepRaisesPeaks(w: World, op: Op, i: nat, g: Gauge)
    requires Invariant(w) && i < |Step(w, op).world.sites|
    ensures PeakOf(Step(w, op).world.counters[i], g)
         == Max(Reading(Step(w, op).world.counters[i], g), if i < |w.sites| then PeakOf(w.counters[i], g) else 0)
  {
    if i < |w.sites| {
      assert Balanced(w, i);
      if Step(w, op).code == Ok {
        StepIsExact(w, op, i);
        var e := Effect(w, op);
        if e.Some? && Under(w.sites, e.value.0, i) {
          ApplyRaisesPeaks(w.counters[i], e.value.1, g);
        }
      } else {
        RefusalChangesOnlyRejections(w, op);
      }
    }
  }

  lemma {:induction false} SitesOnlyGrow(capacity: u64, ops: seq<Op>, i: nat, g: Gauge)
    requires capacity > 0 && i >= |Run(capacity, ops).sites|
    ensures Highest(capacity, ops, i, g) == 0
    decreases ops
  {
    if ops != [] {
      SitesOnlyGrow(capacity, ops[..|ops| - 1], i, g);
    }
  }

  /** Each peak is exactly the historical maximum of what it tracks. */
  lemma {:induction false} PeaksAreHistoricalMaxima(capacity: u64, ops: seq<Op>, i: nat, g: Gauge)
    requires capacity > 0 && i < |Run(capacity, ops).sites|
    ensures PeakOf(Run(capacity, ops).counters[i], g) == Highest(capacity, ops, i, g)
    decreases ops
  {
    if ops != [] {
      var prefix := ops[..|ops| - 1];
      EveryRunBalances(capacity, prefix);
      StepRaisesPeaks(Run(capacity, prefix), ops[|ops| - 1], i, g);
      if i < |Run(capacity, prefix).sites| {
        PeaksAreHistoricalMaxima(capacity, prefix, i, g);
      } else {
        SitesOnlyGrow(capacity, prefix, i, g);
      }
    }
  }

  // ------------------------------------------------------------- the refund balance

  lemma {:induction false} TicketsAccounted(sites: seq<Site>, tickets: seq<Ticket>, i: nat)
    requires TicketsOk(sites, tickets)
    ensures Total(sites, tickets, i, Grants) + Total(sites, tickets, i, Partitions)
         == Total(sites, tickets, i, Refunds) + Total(sites, tickets, i, Live)
    decreases tickets
  {
    if tickets != [] {
      TicketsAccounted(sites, tickets[..|tickets| - 1], i);
    }
  }

  /** Refunds balance grants plus partitions, not grants alone: refund_count <=
      reservation_count holds exactly when at least as many tickets are live below the
      site as were split off there, or the reservation count has saturated. */
  lemma RefundsAgainstReservations(capacity: u64, ops: seq<Op>, i: nat)
    requires capacity > 0 && i < |Run(capacity, ops).sites|
    ensures var w := Run(capacity, ops);
            var c, live, partitions :=
              w.counters[i], Total(w.sites, w.tickets, i, Live), Total(w.sites, w.tickets, i, Partitions);
            && (c.refunds <= c.reservations <==> partitions <= live || c.reservations == U64_MAX)
            && (c.refunds < U64_MAX && c.reservations < U64_MAX ==> c.refunds + live == c.reservations + partitions)
  {
    var w := Run(capacity, ops);
    EveryRunBalances(capacity, ops);
    assert Balanced(w, i);
    TicketsAccounted(w.sites, w.tickets, i);
  }

  /** One reservation, split once and refunded twice. */
  lemma RefundsCanExceedReservations()
    ensures var w := Run(1, [Reserve(0, 0)] + [Partition(0, 0)] + [Release(0)] + [Release(1)]);
            |w.sites| == 1 && w.counters[0].reservations == 1 && w.counters[0].refunds == 2
  {
    var reserved := [Reserve(0, 0)];
    RunStep(1, [], reserved[0]);
    assert [] + reserved == reserved;
    RunStep(1, reserved, Partition(0, 0));
    var split := reserved + [Partition(0, 0)];
    RunStep(1, split, Release(0));
    RunStep(1, split + [Release(0)], Release(1));
    var w := Run(1, split);
    assert w.tickets == [Ticket(0, false, Pending(0)), Ticket(0, true, Pending(0))];
    assert w.counters[0].reservations == 1 && w.counters[0].refunds == 0;
    var w' := Run(1, split + [Release(0)]);
    assert w'.counters[0].reservations == 1 && w'.counters[0].refunds == 1;
    assert w'.tickets[1] == w.tickets[1];
  }
}
