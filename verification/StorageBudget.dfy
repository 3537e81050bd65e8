/** The budget and reservation objects (node/src/storage.cpp), each operation
    proved to make exactly one step of the transition system in StorageModel.
    A method body is the critical section that the hierarchy lock protects. */
module StorageBudget {
  import opened Words
  import opened StorageModel

  /** One budget node. `id` numbers the nodes of a hierarchy in creation order. */
  class State {
    const hierarchy: Hierarchy
    const parent: State?
    const capacityBytes: u64
    ghost const id: nat
    var physicalBytes: u64
    var allocatedBytes: u64
    var reservedBytes: u64
    var peakPhysicalBytes: u64
    var peakAllocatedBytes: u64
    var peakReservedBytes: u64
    var peakUsedBytes: u64
    var reservationCount: u64
    var commitCount: u64
    var refundCount: u64
    var rejectionCount: u64

    constructor (hierarchy: Hierarchy, parent: State?, capacityBytes: u64, ghost id: nat)
      ensures this.hierarchy == hierarchy && this.parent == parent
      ensures this.capacityBytes == capacityBytes && this.id == id
      ensures Shown() == FRESH
    {
      this.hierarchy, this.parent, this.capacityBytes, this.id := hierarchy, parent, capacityBytes, id;
      physicalBytes, allocatedBytes, reservedBytes := 0, 0, 0;
      peakPhysicalBytes, peakAllocatedBytes, peakReservedBytes, peakUsedBytes := 0, 0, 0, 0;
      reservationCount, commitCount, refundCount, rejectionCount := 0, 0, 0, 0;
    }

    ghost function Shown(): Counters
      reads this
    {
      Counters(physicalBytes, allocatedBytes, reservedBytes,
               peakPhysicalBytes, peakAllocatedBytes, peakReservedBytes, peakUsedBytes,
               reservationCount, commitCount, refundCount, rejectionCount)
    }

    ghost function ToSite(): Site {
      Site(IdOf(parent), capacityBytes)
    }

    method AdmitsBytes(bytes: u64) returns (ok: bool)
      ensures ok == StorageModel.AdmitsBytes(ToSite(), Shown(), bytes)
    {
      if allocatedBytes > capacityBytes || reservedBytes > capacityBytes - allocatedBytes {
        return false;
      }
      ok := bytes <= capacityBytes - allocatedBytes - reservedBytes;
    }

    method AdmitsUsage(usage: Usage) returns (ok: bool)
      ensures ok == StorageModel.AdmitsUsage(Shown(), usage)
    {
      ok := physicalBytes <= U64_MAX - usage.physicalBytes && allocatedBytes <= U64_MAX - usage.allocatedBytes;
    }

    // The four state changes of one node.

    method Reject()
      modifies this
      ensures Shown() == Apply(old(Shown()), Rejecting)
    {
      rejectionCount := Increment(rejectionCount);
    }

    method Reserve(bytes: u64)
      modifies this
      ensures Shown() == Apply(old(Shown()), Reserving(bytes))
    {
      reservedBytes := WrapAdd(reservedBytes, bytes);
      peakReservedBytes := Max(peakReservedBytes, reservedBytes);
      peakUsedBytes := Max(peakUsedBytes, WrapAdd(reservedBytes, allocatedBytes));
      reservationCount := Increment(reservationCount);
    }

    method Commit(reserved: u64, usage: Usage)
      modifies this
      ensures Shown() == Apply(old(Shown()), Committing(reserved, usage))
    {
      reservedBytes := WrapSub(reservedBytes, reserved);
      allocatedBytes := WrapAdd(allocatedBytes, usage.allocatedBytes);
      physicalBytes := WrapAdd(physicalBytes, usage.physicalBytes);
      peakAllocatedBytes := Max(peakAllocatedBytes, allocatedBytes);
      peakPhysicalBytes := Max(peakPhysicalBytes, physicalBytes);
      peakUsedBytes := Max(peakUsedBytes, WrapAdd(reservedBytes, allocatedBytes));
      commitCount := Increment(commitCount);
    }

    method Refund(reserved: u64, usage: Usage, committed: bool)
      modifies this
      ensures Shown() == Apply(old(Shown()), Refunding(reserved, usage, committed))
    {
      if committed {
        allocatedBytes := WrapSub(allocatedBytes, usage.allocatedBytes);
        physicalBytes := WrapSub(physicalBytes, usage.physicalBytes);
      } else {
        reservedBytes := WrapSub(reservedBytes, reserved);
      }
      refundCount := Increment(refundCount);
    }
  }

  /** The owners once a reservation has been issued or moved into; a refused one is
      nobody's owner. */
  ghost function With(owners: map<nat, Reservation>, r: Reservation): map<nat, Reservation>
    reads r
  {
    if r.state == null then owners else owners[r.ticket := r]
  }

  ghost function IdOf(state: State?): Option<nat> {
    if state == null then None else Some(state.id)
  }

  /** The object every node of one tree shares. The source keeps only the mutex
      here; the ghost fields record the tree, the abstract state the objects
      stand for, and which reservation carries each live ticket. */
  class Hierarchy {
    ghost var states: seq<State>
    ghost var sites: seq<Site>
    ghost var counters: seq<Counters>
    ghost var tickets: seq<Ticket>
    ghost var owners: map<nat, Reservation>

    constructor (ghost world: World)
      ensures states == [] && owners == map[] && Now() == world
    {
      states, owners := [], map[];
      sites, counters, tickets := world.sites, world.counters, world.tickets;
    }

    ghost function Now(): World
      reads this`sites, this`counters, this`tickets
    {
      World(sites, counters, tickets)
    }

    /** Nodes know their place, and a parent was created before its children. */
    ghost predicate Linked()
      reads this`states
    {
      && (forall i :: 0 <= i < |states| ==> states[i].id == i && states[i].hierarchy == this)
      && (forall i :: 0 <= i < |states| ==> ParentHeld(i))
    }

    ghost predicate ParentHeld(i: nat)
      requires i < |states|
      reads this`states
    {
      states[i].parent != null ==> Holds(states[i].parent) && states[i].parent.id < i
    }

    ghost predicate Holds(state: State?)
      reads this`states
    {
      state != null && state.id < |states| && states[state.id] == state
    }

    /** The nodes show exactly the abstract sites and counters. */
    ghost predicate Mirrors()
      reads this`states, this`sites, this`counters, states
    {
      && |sites| == |states| && |counters| == |states|
      && forall i :: 0 <= i < |states| ==>
           states[i].ToSite() == sites[i] && states[i].Shown() == counters[i]
    }

    /** A reservation object that carries ticket t of this hierarchy. */
    ghost predicate Carries(r: Reservation, t: nat)
      reads this`states, this`tickets, r
    {
      && t < |tickets| && r.ticket == t
      && Holds(r.state) && r.state.hierarchy == this
      && r.code == Ok
      && (!r.isCommitted ==> r.usage == NO_USAGE)
      && tickets[t].site == r.state.id
      && tickets[t].status == if r.isCommitted then Committed(r.maxBytes, r.usage) else Pending(r.maxBytes)
    }

    /** Every live ticket has exactly one reservation object to carry it. */
    ghost predicate Owned()
      reads this`states, this`tickets, this`owners, owners.Values
    {
      && (forall t :: t in owners ==> Carries(owners[t], t))
      && (forall t :: 0 <= t < |tickets| ==> (t in owners <==> !tickets[t].status.Released?))
    }

    /** The objects stand for the abstract state, whatever that is. */
    ghost predicate Sound()
      reads this, states, owners.Values
    {
      Linked() && Mirrors() && Owned()
    }

    ghost predicate Valid()
      reads this, states, owners.Values
    {
      Sound() && Invariant(Now())
    }

    /** A reservation of another hierarchy, or of none, owns nothing here. */
    lemma Strangers(r: Reservation)
      requires Valid() && (r.state == null || r.state.hierarchy != this)
      ensures r !in owners.Values
    {
      forall t | t in owners
        ensures owners[t] != r
      {
        assert Carries(owners[t], t);
      }
    }

    lemma OwnersHold()
      requires Valid()
      ensures forall r :: r in owners.Values ==> r.state != null
    {
      forall t | t in owners
        ensures owners[t].state != null
      {
        assert Carries(owners[t], t);
      }
    }

    /** What an operation does not write stays valid. */
    twostate lemma Undisturbed()
      requires old(Valid()) && unchanged(this) && unchanged(states) && unchanged(owners.Values)
      ensures Valid()
    {
    }

    // The walks from a node through its root: two that only look, four that write.

    method AdmitsBytesChain(start: State?, bytes: u64) returns (ok: bool)
      requires Linked() && Mirrors() && TreeOk(sites) && (start != null ==> Holds(start))
      ensures ok == ChainAdmitsBytes(sites, counters, IdOf(start), bytes)
    {
      var current := start;
      while current != null
        invariant current != null ==> Holds(current)
        invariant ChainAdmitsBytes(sites, counters, IdOf(current), bytes)
             <==> ChainAdmitsBytes(sites, counters, IdOf(start), bytes)
        decreases if current == null then 0 else current.id + 1
      {
        var admitted := current.AdmitsBytes(bytes);
        if !admitted {
          return false;
        }
        assert ParentHeld(current.id);
        current := current.parent;
      }
      ok := true;
    }

    method AdmitsUsageChain(start: State?, usage: Usage) returns (ok: bool)
      requires Linked() && Mirrors() && TreeOk(sites) && (start != null ==> Holds(start))
      ensures ok == ChainAdmitsUsage(sites, counters, IdOf(start), usage)
    {
      var current := start;
      while current != null
        invariant current != null ==> Holds(current)
        invariant ChainAdmitsUsage(sites, counters, IdOf(current), usage)
             <==> ChainAdmitsUsage(sites, counters, IdOf(start), usage)
        decreases if current == null then 0 else current.id + 1
      {
        var admitted := current.AdmitsUsage(usage);
        if !admitted {
          return false;
        }
        assert ParentHeld(current.id);
        current := current.parent;
      }
      ok := true;
    }

    method RejectChain(start: State?)
      requires Linked() && Mirrors() && TreeOk(sites) && (start != null ==> Holds(start))
      modifies this`counters, states
      ensures Mirrors()
      ensures counters == ApplyChain(sites, old(counters), IdOf(start), Rejecting)
    {
      var current := start;
      while current != null
        invariant Mirrors() && (current != null ==> Holds(current))
        invariant ApplyChain(sites, counters, IdOf(current), Rejecting)
               == ApplyChain(sites, old(counters), IdOf(start), Rejecting)
        decreases if current == null then 0 else current.id + 1
      {
        current.Reject();
        counters := counters[current.id := current.Shown()];
        assert ParentHeld(current.id);
        current := current.parent;
      }
    }

    method ReserveChain(start: State?, bytes: u64)
      requires Linked() && Mirrors() && TreeOk(sites) && (start != null ==> Holds(start))
      modifies this`counters, states
      ensures Mirrors()
      ensures counters == ApplyChain(sites, old(counters), IdOf(start), Reserving(bytes))
    {
      var current := start;
      while current != null
        invariant Mirrors() && (current != null ==> Holds(current))
        invariant ApplyChain(sites, counters, IdOf(current), Reserving(bytes))
               == ApplyChain(sites, old(counters), IdOf(start), Reserving(bytes))
        decreases if current == null then 0 else current.id + 1
      {
        current.Reserve(bytes);
        counters := counters[current.id := current.Shown()];
        assert ParentHeld(current.id);
        current := current.parent;
      }
    }

    method CommitChain(start: State?, reserved: u64, usage: Usage)
      requires Linked() && Mirrors() && TreeOk(sites) && (start != null ==> Holds(start))
      modifies this`counters, states
      ensures Mirrors()
      ensures counters == ApplyChain(sites, old(counters), IdOf(start), Committing(reserved, usage))
    {
      var current := start;
      while current != null
        invariant Mirrors() && (current != null ==> Holds(current))
        invariant ApplyChain(sites, counters, IdOf(current), Committing(reserved, usage))
               == ApplyChain(sites, old(counters), IdOf(start), Committing(reserved, usage))
        decreases if current == null then 0 else current.id + 1
      {
        current.Commit(reserved, usage);
        counters := counters[current.id := current.Shown()];
        assert ParentHeld(current.id);
        current := current.parent;
      }
    }

    method RefundChain(start: State?, reserved: u64, usage: Usage, committed: bool)
      requires Linked() && Mirrors() && TreeOk(sites) && (start != null ==> Holds(start))
      modifies this`counters, states
      ensures Mirrors()
      ensures counters == ApplyChain(sites, old(counters), IdOf(start), Refunding(reserved, usage, committed))
    {
      var current := start;
      while current != null
        invariant Mirrors() && (current != null ==> Holds(current))
        invariant ApplyChain(sites, counters, IdOf(current), Refunding(reserved, usage, committed))
               == ApplyChain(sites, old(counters), IdOf(start), Refunding(reserved, usage, committed))
        decreases if current == null then 0 else current.id + 1
      {
        current.Refund(reserved, usage, committed);
        counters := counters[current.id := current.Shown()];
        assert ParentHeld(current.id);
        current := current.parent;
      }
    }

    // The critical sections.

    method Grow(parent: State, capacityBytes: u64) returns (child: State)
      requires Valid() && Holds(parent) && 0 < capacityBytes <= parent.capacityBytes
      modifies this`states, this`sites, this`counters
      ensures Valid() && Holds(child) && fresh(child)
      ensures child.parent == parent && child.capacityBytes == capacityBytes
      ensures states == old(states) + [child]
      ensures Now() == ChildStep(old(Now()), parent.id, capacityBytes).world
    {
      StepKeepsInvariant(Now(), Op.Child(parent.id, capacityBytes));
      child := Graft(parent, capacityBytes);
    }

    method Graft(parent: State, capacityBytes: u64) returns (child: State)
      requires Sound() && Holds(parent) && 0 < capacityBytes <= parent.capacityBytes
      modifies this`states, this`sites, this`counters
      ensures Sound() && Holds(child) && fresh(child) && states == old(states) + [child]
      ensures child.parent == parent && child.capacityBytes == capacityBytes
      ensures sites == old(sites) + [Site(Some(parent.id), capacityBytes)] && counters == old(counters) + [FRESH]
    {
      child := new State(this, parent, capacityBytes, |states|);
      sites := sites + [Site(Some(parent.id), capacityBytes)];
      counters := counters + [FRESH];
      states := states + [child];
      forall i | 0 <= i < |states|
        ensures ParentHeld(i)
      {
        assert i < |old(states)| ==> old(ParentHeld(i));
      }
    }

    /** Counts a refused operation along the chain of a node. */
    method Refuse(state: State, ghost op: Op, code: Reason)
      requires Valid() && Holds(state)
      requires Step(Now(), op) == Rejected(Now(), state.id, code)
      modifies this`counters, states
      ensures Now() == Step(old(Now()), op).world
      ensures Valid()
    {
      StepKeepsInvariant(Now(), op);
      RejectChain(state);
      assert Linked() && Owned();
    }

    method Grant(state: State, bytes: u64) returns (r: Reservation)
      requires Valid() && Holds(state)
      requires ChainAdmitsBytes(sites, counters, Some(state.id), bytes)
      modifies this`counters, this`tickets, this`owners, states
      ensures Now() == ReserveStep(old(Now()), state.id, bytes).world
      ensures Valid()
      ensures fresh(r) && r.state == state && r.code == Ok && r.Uncommitted(bytes)
      ensures r.ticket !in old(owners) && r.ticket == |old(tickets)|
      ensures owners == old(owners)[r.ticket := r]
    {
      hide Mirrors;
      hide Carries;
      hide Balanced;
      StepKeepsInvariant(Now(), Op.Reserve(state.id, bytes));
      ReserveChain(state, bytes);
      r := Issue(state, bytes, false);
    }

    /** Creates the reservation that carries a new pending ticket. */
    method Issue(state: State, bytes: u64, ghost partitioned: bool) returns (r: Reservation)
      requires Linked() && Owned() && Holds(state)
      modifies this`tickets, this`owners
      ensures Owned() && owners == old(owners)[r.ticket := r]
      ensures tickets == old(tickets) + [Ticket(state.id, partitioned, Pending(bytes))]
      ensures fresh(r) && r.state == state && r.code == Ok && r.Uncommitted(bytes)
      ensures r.ticket !in old(owners) && r.ticket == |old(tickets)|
    {
      r := new Reservation.Granted(state, bytes, |tickets|);
      owners := owners[|tickets| := r];
      tickets := tickets + [Ticket(state.id, partitioned, Pending(bytes))];
    }

    /** Rewrites the fields of a live reservation and its ticket together. */
    method Show(r: Reservation, max: u64, usage: Usage, committed: bool)
      requires Linked() && Owned() && r.ticket in owners && owners[r.ticket] == r
      requires !committed ==> usage == NO_USAGE
      modifies r`maxBytes, r`usage, r`isCommitted, this`tickets
      ensures Owned()
      ensures r.maxBytes == max && r.usage == usage && r.isCommitted == committed
      ensures tickets
           == Restated(old(tickets), r.ticket, if committed then Committed(max, usage) else Pending(max))
    {
      r.maxBytes, r.usage, r.isCommitted := max, usage, committed;
      tickets := Restated(tickets, r.ticket, if committed then Committed(max, usage) else Pending(max));
    }

    /** Takes `bytes` off a pending reservation and issues them as another. */
    method Divide(r: Reservation, bytes: u64) returns (part: Reservation)
      requires Linked() && Owned() && r.ticket in owners && owners[r.ticket] == r && !r.isCommitted
            && bytes <= r.maxBytes
      modifies r`maxBytes, r`usage, r`isCommitted, this`tickets, this`owners
      ensures tickets == Restated(old(tickets), r.ticket, Pending(old(r.maxBytes) - bytes))
                         + [Ticket(r.state.id, true, Pending(bytes))]
      ensures Owned()
      ensures fresh(part) && part.state == r.state && part.code == Ok
      ensures part.Uncommitted(bytes) && r.Uncommitted(old(r.maxBytes) - bytes)
      ensures owners == old(owners)[part.ticket := part]
      ensures part.ticket !in old(owners) && part.ticket == |old(tickets)|
    {
      Show(r, r.maxBytes - bytes, NO_USAGE, false);
      part := Issue(r.state, bytes, true);
    }

    method Split(r: Reservation, bytes: u64) returns (part: Reservation)
      requires Valid() && r.ticket in owners && owners[r.ticket] == r && !r.isCommitted && bytes <= r.maxBytes
      modifies r`maxBytes, r`usage, r`isCommitted, this`tickets, this`owners
      ensures Now() == PartitionStep(old(Now()), r.ticket, bytes).world
      ensures PartitionStep(old(Now()), r.ticket, bytes).code == Ok
      ensures Valid()
      ensures fresh(part) && part.state == r.state && part.code == Ok
      ensures part.Uncommitted(bytes) && r.Uncommitted(old(r.maxBytes) - bytes)
      ensures owners == old(owners)[part.ticket := part]
      ensures part.ticket !in old(owners) && part.ticket == |old(tickets)|
    {
      StepKeepsInvariant(Now(), Op.Partition(r.ticket, bytes));
      part := Divide(r, bytes);
    }

    method CommitAt(r: Reservation, usage: Usage)
      requires Sound() && WellFormed(Now()) && r.ticket in owners && owners[r.ticket] == r && !r.isCommitted
      requires usage.allocatedBytes <= r.maxBytes
      requires ChainAdmitsUsage(sites, counters, Some(r.state.id), usage)
      modifies r`maxBytes, r`usage, r`isCommitted, this`tickets, this`counters, states
      ensures Now() == CommitStep(old(Now()), r.ticket, usage).world
      ensures Sound()
      ensures r.isCommitted && r.usage == usage && r.maxBytes == old(r.maxBytes)
    {
      CommitChain(r.state, r.maxBytes, usage);
      Show(r, r.maxBytes, usage, true);
    }

    /** Moves a ticket to another reservation object. */
    method Hand(from: Reservation, to: Reservation)
      requires Valid() && from.ticket in owners && owners[from.ticket] == from && to.Blank()
      modifies from, to, this`owners
      ensures from.Blank() && from.code == ReservationInvalid
      ensures to.Contents() == old(from.Contents())
      ensures owners == old(owners)[to.ticket := to]
      ensures Valid()
    {
      hide Linked;
      hide Mirrors;
      hide Invariant;
      to.CopyFrom(from);
      from.Clear();
      owners := owners[to.ticket := to];
      forall t | t in owners
        ensures Carries(owners[t], t)
      {
        assert t == to.ticket || old(Carries(owners[t], t));
      }
    }

    // What the public operations do under the lock.

    method TryReserve(state: State, bytes: u64) returns (r: Reservation)
      requires Valid() && Holds(state)
      modifies this`counters, this`tickets, this`owners, states
      ensures var step := ReserveStep(old(Now()), state.id, bytes);
              && Now() == step.world && r.code == step.code
              && (if step.code == Ok then r.state == state && r.ticket !in old(owners) && r.ticket == |old(tickets)|
                                          && r.Uncommitted(bytes)
                  else r.Blank())
      ensures owners == With(old(owners), r)
      ensures Valid() && fresh(r)
    {
      var admitted := AdmitsBytesChain(state, bytes);
      if !admitted {
        Refuse(state, Op.Reserve(state.id, bytes), CapacityExceeded);
        r := new Reservation.Refused(CapacityExceeded);
      } else {
        r := Grant(state, bytes);
      }
    }

    method TrySplit(r: Reservation, bytes: u64) returns (part: Reservation)
      requires Valid() && r.ticket in owners && owners[r.ticket] == r && !r.isCommitted
      modifies r`maxBytes, r`usage, r`isCommitted, this`counters, this`tickets, this`owners, states
      ensures var step := PartitionStep(old(Now()), r.ticket, bytes);
              && Now() == step.world && part.code == step.code
              && (if step.code == Ok then part.state == r.state && part.ticket !in old(owners)
                                          && part.ticket == |old(tickets)| && part.Uncommitted(bytes)
                  else part.Blank())
              && r.Uncommitted(old(r.maxBytes) - if step.code == Ok then bytes else 0)
      ensures owners == With(old(owners), part)
      ensures Valid() && fresh(part) && r.state == old(r.state) && r.ticket in owners && owners[r.ticket] == r
    {
      hide Mirrors;
      hide Invariant;
      if bytes > r.maxBytes {
        Refuse(r.state, Op.Partition(r.ticket, bytes), ReservationInvalid);
        part := new Reservation.Refused(ReservationInvalid);
      } else {
        part := Split(r, bytes);
      }
    }

    method AdmitsCommit(r: Reservation, usage: Usage) returns (ok: bool)
      requires Valid() && r.ticket in owners && owners[r.ticket] == r
      ensures ok <==> usage.allocatedBytes <= r.maxBytes && ChainAdmitsUsage(sites, counters, Some(r.state.id), usage)
    {
      if usage.allocatedBytes > r.maxBytes {
        return false;
      }
      ok := AdmitsUsageChain(r.state, usage);
    }

    method TryCommit(r: Reservation, usage: Usage) returns (status: Reason)
      requires Valid() && r.ticket in owners && owners[r.ticket] == r && !r.isCommitted
      modifies r`maxBytes, r`usage, r`isCommitted, this`counters, this`tickets, states
      ensures var step := CommitStep(old(Now()), r.ticket, usage);
              Now() == step.world && status == step.code
      ensures Valid() && r.state == old(r.state) && r.maxBytes == old(r.maxBytes)
      ensures status == Ok ==> usage.allocatedBytes <= r.maxBytes && r.isCommitted && r.usage == usage
      ensures status != Ok ==> !r.isCommitted && r.usage == old(r.usage)
    {
      CommitDecided(r, usage);
      hide Sound;
      hide Invariant;
      hide CommitStep;
      var admitted := AdmitsCommit(r, usage);
      if !admitted {
        Refuse(r.state, Op.Commit(r.ticket, usage), CommitInvalid);
        return CommitInvalid;
      }
      CommitAdmitted(r, usage);
      status := Ok;
    }

    lemma CommitDecided(r: Reservation, usage: Usage)
      requires Valid() && r.ticket in owners && owners[r.ticket] == r && !r.isCommitted
      ensures WellFormed(Now()) && r.state != null && Holds(r.state)
      ensures if usage.allocatedBytes <= r.maxBytes && ChainAdmitsUsage(sites, counters, Some(r.state.id), usage)
              then CommitStep(Now(), r.ticket, usage).code == Ok
              else CommitStep(Now(), r.ticket, usage) == Rejected(Now(), r.state.id, CommitInvalid)
    {
      hide Mirrors;
      hide Balanced;
      hide ChainAdmitsUsage;
      hide Walk;
    }

    method CommitAdmitted(r: Reservation, usage: Usage)
      requires Valid() && r.ticket in owners && owners[r.ticket] == r && !r.isCommitted
      requires usage.allocatedBytes <= r.maxBytes
      requires r.state != null && ChainAdmitsUsage(sites, counters, Some(r.state.id), usage)
      modifies r`maxBytes, r`usage, r`isCommitted, this`tickets, this`counters, states
      ensures Now() == CommitStep(old(Now()), r.ticket, usage).world
      ensures Valid()
      ensures r.isCommitted && r.usage == usage && r.maxBytes == old(r.maxBytes)
    {
      hide Sound;
      hide Balanced;
      StepKeepsInvariant(Now(), Op.Commit(r.ticket, usage));
      CommitAt(r, usage);
    }

    method GiveBack(r: Reservation)
      requires Valid() && r.ticket in owners && owners[r.ticket] == r
      modifies this`counters, this`tickets, this`owners, states
      ensures Now() == ReleaseStep(old(Now()), r.ticket).world
      ensures Valid()
      ensures owners == old(owners) - {r.ticket} && r !in owners.Values
    {
      hide Sound;
      StepKeepsInvariant(Now(), Op.Release(r.ticket));
      Withdraw(r);
    }

    method Withdraw(r: Reservation)
      requires Sound() && WellFormed(Now()) && r.ticket in owners && owners[r.ticket] == r
      modifies this`counters, this`tickets, this`owners, states
      ensures Now() == ReleaseStep(old(Now()), r.ticket).world
      ensures Sound()
      ensures owners == old(owners) - {r.ticket} && r !in owners.Values
    {
      RefundChain(r.state, r.maxBytes, r.usage, r.isCommitted);
      Retire(r.ticket);
    }

    /** Ticket t is gone and nobody carries it. */
    ghost method Retire(t: nat)
      requires Linked() && Owned() && t in owners
      modifies this`tickets, this`owners
      ensures Owned() && owners == old(owners) - {t} && old(owners)[t] !in owners.Values
      ensures tickets == Restated(old(tickets), t, Released(old(tickets)[t].status.Committed?))
    {
      owners := owners - {t};
      tickets := Restated(tickets, t, Released(tickets[t].status.Committed?));
    }
  }

  /** What an operation may write: the tree behind a node, if there is one. */
  ghost function Tree(state: State?): set<object>
    reads if state == null then {} else {state.hierarchy}
  {
    if state == null then {} else {state.hierarchy as object} + (set s | s in state.hierarchy.states)
  }

  datatype Report = Snapshot(code: Reason, capacityBytes: u64, shown: Counters, availableBytes: u64)

  /** A copyable capability for one node, or the reason there is none. */
  datatype Budget = Budget(state: State?, code: Reason) {

    /** `Budget(capacity_bytes)`. */
    static method Create(capacityBytes: u64) returns (b: Budget)
      ensures capacityBytes == 0 ==> b == Budget(null, BudgetInvalid)
      ensures capacityBytes > 0 ==>
                && b.Ok() && b.Valid()
                && fresh(b.state) && fresh(b.state.hierarchy)
                && b.state.hierarchy.Now() == Start(capacityBytes) && b.state.id == 0
                && b.state.capacityBytes == capacityBytes && b.state.parent == null
                && b.state.hierarchy.states == [b.state] && b.state.hierarchy.owners == map[]
    {
      if capacityBytes == 0 {
        return Budget(null, BudgetInvalid);
      }
      var hierarchy := new Hierarchy(Start(capacityBytes));
      var state := new State(hierarchy, null, capacityBytes, 0);
      hierarchy.states := [state];
      EveryRunBalances(capacityBytes, []);
      b := Budget(state, Reason.Ok);
    }

    predicate Ok() {
      state != null && code == Reason.Ok
    }

    function Code(): Reason {
      if state == null && code == Reason.Ok then BudgetInvalid else code
    }

    ghost predicate Valid()
      reads if state == null then {} else {state, state.hierarchy}
      reads if state == null then {} else (set s | s in state.hierarchy.states)
      reads if state == null then {} else state.hierarchy.owners.Values
    {
      state != null ==> code == Reason.Ok && state.hierarchy.Valid() && state.hierarchy.Holds(state)
    }

    method Child(capacityBytes: u64) returns (b: Budget)
      requires Valid()
      modifies if state == null then {} else {state.hierarchy}
      ensures Valid() && b.Valid()
      ensures !Ok() ==> b == Budget(null, Code())
      ensures state != null ==>
                && state.hierarchy.owners == old(state.hierarchy.owners)
                && state.hierarchy.states
                   == old(state.hierarchy.states) + if b.state == null then [] else [b.state as State]
      ensures Ok() ==>
                var step := ChildStep(old(state.hierarchy.Now()), state.id, capacityBytes);
                && state.hierarchy.Now() == step.world && b.code == step.code
                && (b.state != null <==> step.code == Reason.Ok)
                && (b.state != null <==> 0 < capacityBytes <= state.capacityBytes)
                && (b.state != null ==> fresh(b.state) && b.state.hierarchy == state.hierarchy
                                        && b.state.id == |old(state.hierarchy.Now()).sites|)
      ensures b.state != null ==> b.state.parent == state && b.state.capacityBytes == capacityBytes
    {
      if !Ok() {
        return Budget(null, Code());
      }
      if capacityBytes == 0 || capacityBytes > state.capacityBytes {
        return Budget(null, BudgetInvalid);
      }
      var child := state.hierarchy.Grow(state, capacityBytes);
      b := Budget(child, Reason.Ok);
    }

    /** One synchronised snapshot; its subtractions never wrap. */
    method Report() returns (r: Report)
      requires Valid()
      ensures !Ok() ==> r == Snapshot(Code(), 0, FRESH, 0)
      ensures Ok() ==> r.code == Reason.Ok && r.capacityBytes == state.capacityBytes && r.shown == state.Shown()
      ensures Ok() ==> r.availableBytes + r.shown.allocatedBytes + r.shown.reservedBytes == r.capacityBytes
    {
      if !Ok() {
        return Snapshot(Code(), 0, FRESH, 0);
      }
      assert Balanced(state.hierarchy.Now(), state.id);
      var used := WrapAdd(state.allocatedBytes, state.reservedBytes);
      r := Snapshot(
        Reason.Ok, state.capacityBytes,
        Counters(state.physicalBytes, state.allocatedBytes, state.reservedBytes,
                 state.peakPhysicalBytes, state.peakAllocatedBytes, state.peakReservedBytes, state.peakUsedBytes,
                 state.reservationCount, state.commitCount, state.refundCount, state.rejectionCount),
        WrapSub(state.capacityBytes, used));
    }

    method Reserve(bytes: u64) returns (r: Reservation)
      requires Valid()
      modifies Tree(state)
      ensures Valid() && fresh(r) && r.Valid()
      ensures !Ok() ==> r.state == null && r.code == Code()
      ensures state != null ==>
                && state.hierarchy.states == old(state.hierarchy.states)
                && state.hierarchy.owners == With(old(state.hierarchy.owners), r)
      ensures r.state != null ==>
                r.ticket !in old(state.hierarchy.owners) && r.ticket == |old(state.hierarchy.Now()).tickets|
      ensures Ok() ==>
                var step := ReserveStep(old(state.hierarchy.Now()), state.id, bytes);
                && state.hierarchy.Now() == step.world && r.code == step.code
                && r.state == (if step.code == Reason.Ok then state else null)
      ensures r.state != null ==> r.Uncommitted(bytes)
    {
      if !Ok() {
        r := new Reservation.Refused(Code());
        return;
      }
      r := state.hierarchy.TryReserve(state, bytes);
    }
  }

  /** Everything a reservation object holds. */
  datatype Held = Held(state: State?, maxBytes: u64, usage: Usage, code: Reason, isCommitted: bool, ticket: nat)

  class Reservation {
    var state: State?
    var maxBytes: u64
    var usage: Usage
    var code: Reason
    var isCommitted: bool
    ghost var ticket: nat

    constructor Refused(code: Reason)
      ensures state == null && this.code == code && !isCommitted
      ensures maxBytes == 0 && usage == NO_USAGE
    {
      this.state, this.maxBytes, this.usage, this.code, this.isCommitted := null, 0, NO_USAGE, code, false;
    }

    constructor Granted(state: State, maxBytes: u64, ghost ticket: nat)
      ensures this.state == state && this.maxBytes == maxBytes && this.ticket == ticket
      ensures code == Reason.Ok && !isCommitted && usage == NO_USAGE
    {
      this.state, this.maxBytes, this.usage, this.code, this.isCommitted := state, maxBytes, NO_USAGE, Reason.Ok, false;
      this.ticket := ticket;
    }

    /** The owner of one live ticket of a valid hierarchy. */
    ghost predicate Live()
      requires state != null
      reads this, state.hierarchy, state.hierarchy.states, state.hierarchy.owners.Values
    {
      state.hierarchy.Valid() && ticket in state.hierarchy.owners && state.hierarchy.owners[ticket] == this
    }

    ghost function Contents(): Held
      reads this
    {
      Held(state, maxBytes, usage, code, isCommitted, ticket)
    }

    ghost predicate Blank()
      reads this
    {
      state == null && maxBytes == 0 && usage == NO_USAGE && !isCommitted
    }

    ghost predicate Valid()
      reads this
      reads if state == null then {} else {state.hierarchy}
      reads if state == null then {} else (set s | s in state.hierarchy.states)
      reads if state == null then {} else state.hierarchy.owners.Values
    {
      if state == null then Blank() else Live()
    }

    predicate IsOk()
      reads this
    {
      state != null && code == Ok
    }

    /** Holds a maximum of so many bytes, and no usage yet. */
    ghost predicate Uncommitted(bytes: int)
      reads this
    {
      maxBytes == bytes && !isCommitted && usage == NO_USAGE
    }

    /** Gives part of an uncommitted maximum to a new reservation. */
    method Partition(bytes: u64) returns (part: Reservation)
      requires Valid()
      modifies this, Tree(state)
      ensures state == old(state) && ticket == old(ticket) && fresh(part)
      ensures state == null || old(isCommitted) ==> part.Blank() && part.code == ReservationInvalid
      ensures state != null ==>
                var step := PartitionStep(old(state.hierarchy.Now()), ticket, bytes);
                && state.hierarchy.Now() == step.world && part.code == step.code
                && part.state == if step.code == Ok then state else null
      ensures state != null ==>
                && state.hierarchy.states == old(state.hierarchy.states)
                && state.hierarchy.owners == With(old(state.hierarchy.owners), part)
      ensures part.state != null ==>
                part.ticket !in old(state.hierarchy.owners) && part.ticket == |old(state.hierarchy.Now()).tickets|
      ensures part.state != null <==> state != null && !old(isCommitted) && bytes <= old(maxBytes)
      ensures part.state != null ==> part.Uncommitted(bytes) && Uncommitted(old(maxBytes) - bytes)
      ensures part.state == null ==> Contents() == old(Contents())
      ensures Valid() && part.Valid()
    {
      hide Hierarchy.Mirrors;
      hide Invariant;
      if !IsOk() || isCommitted {
        part := new Reservation.Refused(ReservationInvalid);
      } else {
        part := state.hierarchy.TrySplit(this, bytes);
      }
    }

    /** Replaces the reserved maximum by measured usage, once. */
    method Commit(usage: Usage) returns (status: Reason)
      requires Valid()
      modifies this, Tree(state)
      ensures state == old(state) && ticket == old(ticket)
      ensures state == null ==> status == ReservationInvalid
      ensures state != null ==>
                var step := CommitStep(old(state.hierarchy.Now()), ticket, usage);
                && state.hierarchy.Now() == step.world && status == step.code
      ensures status == Ok ==>
                && state != null && !old(isCommitted) && usage.allocatedBytes <= old(maxBytes)
                && isCommitted && this.usage == usage && maxBytes == old(maxBytes)
      ensures status != Ok ==> Contents() == old(Contents())
      ensures state != null ==>
                && state.hierarchy.states == old(state.hierarchy.states)
                && state.hierarchy.owners == old(state.hierarchy.owners)
      ensures Valid()
    {
      hide Hierarchy.Mirrors;
      hide Invariant;
      if !IsOk() || isCommitted {
        return ReservationInvalid;
      }
      status := state.hierarchy.TryCommit(this, usage);
    }

    method CopyFrom(other: Reservation)
      modifies this
      ensures Contents() == old(other.Contents())
    {
      state, maxBytes, usage, code, isCommitted :=
        other.state, other.maxBytes, other.usage, other.code, other.isCommitted;
      ticket := other.ticket;
    }

    method Clear()
      modifies this
      ensures Blank() && code == ReservationInvalid && ticket == old(ticket)
    {
      state, maxBytes, usage, code, isCommitted := null, 0, NO_USAGE, ReservationInvalid, false;
    }

    /** Emptying an object that owns nothing leaves the hierarchy as it was. */
    method ClearBeside(ghost h: Hierarchy)
      requires h.Valid() && this !in h.owners.Values
      modifies this
      ensures Blank() && code == ReservationInvalid && ticket == old(ticket)
      ensures h.Valid()
    {
      Clear();
    }

    method ReleaseLive()
      requires state != null && Live()
      modifies this, state.hierarchy, state.hierarchy.states
      ensures Blank() && code == ReservationInvalid
      ensures var h := old(state.hierarchy);
              && h.Valid() && this !in h.owners.Values
              && h.Now() == ReleaseStep(old(state.hierarchy.Now()), old(ticket)).world
              && h.owners == old(state.hierarchy.owners) - {old(ticket)} && h.states == old(state.hierarchy.states)
    {
      ghost var h := state.hierarchy;
      state.hierarchy.GiveBack(this);
      ClearBeside(h);
    }

    /** Gives the charge back and empties this object; the destructor does the same. */
    method Release()
      requires Valid()
      modifies this, Tree(state)
      ensures state == null && Valid()
      ensures old(state) == null ==> code == old(code)
      ensures old(state) != null ==>
                var h := old(state).hierarchy;
                && code == ReservationInvalid && h.Valid()
                && h.Now() == ReleaseStep(old(h.Now()), old(ticket)).world
                && h.owners == old(h.owners) - {old(ticket)} && h.states == old(h.states)
    {
      if state != null {
        ReleaseLive();
      }
    }

    method Refund() returns (status: Reason)
      requires Valid()
      modifies this, Tree(state)
      ensures state == null && Valid()
      ensures status == if old(state) == null then ReservationInvalid else Ok
      ensures old(state) != null ==>
                var h := old(state).hierarchy;
                && h.Valid() && h.Now() == ReleaseStep(old(h.Now()), old(ticket)).world
                && h.owners == old(h.owners) - {old(ticket)} && h.states == old(h.states)
    {
      if !IsOk() {
        return ReservationInvalid;
      }
      Release();
      status := Ok;
    }

    /** Takes over the ticket of another reservation and empties that one. */
    method TakeFrom(other: Reservation)
      requires Blank() && this != other && other.Valid()
      modifies this, other
      modifies if other.state == null then {} else {other.state.hierarchy}
      ensures other.Blank() && other.code == ReservationInvalid
      ensures Contents() == old(other.Contents())
      ensures state != null ==>
                && state.hierarchy.Now() == old(other.state.hierarchy.Now())
                && state.hierarchy.states == old(other.state.hierarchy.states)
                && state.hierarchy.owners == old(other.state.hierarchy.owners)[ticket := this]
      ensures Valid()
    {
      if other.state != null {
        other.state.hierarchy.Hand(other, this);
      } else {
        CopyFrom(other);
        other.Clear();
      }
    }

    /** The move constructor: the charge changes hands, the books do not change. */
    constructor Moved(other: Reservation)
      requires other.Valid()
      modifies other
      modifies if other.state == null then {} else {other.state.hierarchy}
      ensures other.Blank() && other.code == ReservationInvalid
      ensures Contents() == old(other.Contents())
      ensures state != null ==>
                && state.hierarchy.Now() == old(other.state.hierarchy.Now())
                && state.hierarchy.states == old(other.state.hierarchy.states)
                && state.hierarchy.owners == old(other.state.hierarchy.owners)[ticket := this]
      ensures Valid()
    {
      state, maxBytes, usage, code, isCommitted := null, 0, NO_USAGE, ReservationInvalid, false;
      new;
      TakeFrom(other);
    }

    /** Releasing one reservation leaves every other one as it was. */
    method ReleaseBeside(ghost other: Reservation)
      requires state != null && Live() && other != this && other.Valid()
      modifies this, state.hierarchy, state.hierarchy.states
      ensures Blank()
      ensures other.Contents() == old(other.Contents())
      ensures other.state != null && other.state.hierarchy != old(state.hierarchy) ==>
                && other.state.hierarchy.Now() == old(other.state.hierarchy.Now())
                && other.state.hierarchy.owners == old(other.state.hierarchy.owners)
                && other.state.hierarchy.states == old(other.state.hierarchy.states)
      ensures var h := old(state.hierarchy);
              && h.Valid() && h.Now() == ReleaseStep(old(state.hierarchy.Now()), old(ticket)).world
              && h.owners == old(state.hierarchy.owners) - {old(ticket)} && h.states == old(state.hierarchy.states)
              && this !in h.owners.Values
      ensures other.Valid()
    {
      hide Hierarchy.Mirrors;
      hide Invariant;
      hide ReleaseStep;
      ReleaseLive();
    }

    /** Move assignment: gives back what this object held, then takes over. */
    method Assign(other: Reservation)
      requires Valid() && other.Valid()
      modifies this, other, Tree(state), Tree(other.state)
      ensures Contents() == old(other.Contents())
      ensures this != other ==> other.Blank() && other.code == ReservationInvalid
      ensures this != other && old(state) != null ==>
                old(state).hierarchy.Now() == ReleaseStep(old(state.hierarchy.Now()), old(ticket)).world
      ensures state != null && (this == other || old(state) == null || old(state.hierarchy) != state.hierarchy) ==>
                state.hierarchy.Now() == old(other.state.hierarchy.Now())
      ensures old(state) != null ==>
                old(state).hierarchy.Valid() && old(state).hierarchy.states == old(state.hierarchy.states)
      ensures state != null ==> state.hierarchy.states == old(other.state.hierarchy.states)
      ensures old(state) != null && (state == null || state.hierarchy != old(state.hierarchy)) ==>
                old(state).hierarchy.owners == old(state.hierarchy.owners) - {old(ticket)}
      ensures state != null ==>
                state.hierarchy.owners ==
                if this == other then old(other.state.hierarchy.owners)
                else if old(state) != null && old(state.hierarchy) == state.hierarchy
                then (old(other.state.hierarchy.owners) - {old(ticket)})[ticket := this]
                else old(other.state.hierarchy.owners)[ticket := this]
      ensures Valid()
    {
      if this != other {
        if state == null {
          TakeFrom(other);
        } else {
          Replace(other);
        }
      }
    }

    method Replace(other: Reservation)
      requires state != null && Live() && other.Valid() && this != other
      modifies this, other, Tree(state), Tree(other.state)
      ensures Contents() == old(other.Contents())
      ensures other.Blank() && other.code == ReservationInvalid
      ensures old(state).hierarchy.Now() == ReleaseStep(old(state.hierarchy.Now()), old(ticket)).world
      ensures state != null && old(state.hierarchy) != state.hierarchy ==>
                state.hierarchy.Now() == old(other.state.hierarchy.Now())
      ensures old(state).hierarchy.Valid() && old(state).hierarchy.states == old(state.hierarchy.states)
      ensures state != null ==> state.hierarchy.states == old(other.state.hierarchy.states)
      ensures state == null || state.hierarchy != old(state.hierarchy) ==>
                old(state).hierarchy.owners == old(state.hierarchy.owners) - {old(ticket)}
      ensures state != null ==>
                state.hierarchy.owners ==
                if old(state.hierarchy) == state.hierarchy
                then (old(other.state.hierarchy.owners) - {old(ticket)})[ticket := this]
                else old(other.state.hierarchy.owners)[ticket := this]
      ensures Valid()
    {
      hide Hierarchy.Valid;
      ghost var left := state.hierarchy;
      ReleaseBeside(other);
      if other.state == null || other.state.hierarchy != left {
        left.Strangers(other);
      }
      label released:
      TakeFrom(other);
      if state == null || state.hierarchy != left {
        left.Undisturbed@released();
      }
    }
  }

  // --------------------------------------------------------- whole lifetimes

  /** At every node no byte is reserved, allocated or physical. */
  ghost predicate Drained(h: Hierarchy)
    reads h, h.states
  {
    forall i :: 0 <= i < |h.states| ==>
                  var c := h.states[i].Shown();
                  c.reservedBytes == 0 && c.allocatedBytes == 0 && c.physicalBytes == 0
  }

  /** Once no reservation object holds a charge, nothing is charged anywhere. */
  lemma NobodyHoldsAnything(h: Hierarchy)
    requires h.Valid() && forall r :: r in h.owners.Values ==> r.state == null
    ensures Drained(h)
  {
    var w := h.Now();
    h.OwnersHold();
    assert h.owners.Values == {} && h.owners == map[];
    forall i | 0 <= i < |h.states|
      ensures w.counters[i].reservedBytes == w.counters[i].allocatedBytes == w.counters[i].physicalBytes == 0
    {
      EmptySite(w, i);
    }
  }
}
