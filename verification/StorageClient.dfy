/** Programs over one hierarchy of budgets: what the objects of StorageBudget show after
    any sequence of calls, and after all reservations are released. */
module StorageClient {
  import opened Words
  import opened StorageModel
  import opened StorageBudget

  // -------------------------------------------------------------- what a program does

  datatype Command =
    | NewChild(budget: nat, capacity: u64)
    | Take(budget: nat, bytes: u64)
    | Divide(reservation: nat, bytes: u64)
    | Settle(reservation: nat, usage: Usage)
    | Hand(reservation: nat)
    | Replace(target: nat, source: nat)
    | GiveUp(reservation: nat)

  /** A hierarchy, and the site or ticket behind each budget and reservation of the
      program; a refused, released or moved-from one has none. */
  datatype Client = Client(world: World, budgets: seq<Option<nat>>, handles: seq<Option<nat>>)

  function At(xs: seq<Option<nat>>, i: nat): Option<nat> {
    if i < |xs| then xs[i] else None
  }

  /** The operation a command comes to; moving a reservation is none. */
  function OpOf(c: Client, command: Command): Option<Op> {
    match command
    case NewChild(i, capacity) =>
      var site := At(c.budgets, i);
      if site.None? then None else Some(Op.Child(site.value, capacity))
    case Take(i, bytes) =>
      var site := At(c.budgets, i);
      if site.None? then None else Some(Op.Reserve(site.value, bytes))
    case Divide(k, bytes) =>
      var ticket := At(c.handles, k);
      if ticket.None? then None else Some(Op.Partition(ticket.value, bytes))
    case Settle(k, usage) =>
      var ticket := At(c.handles, k);
      if ticket.None? then None else Some(Op.Commit(ticket.value, usage))
    case Hand(_) => None
    case Replace(target, source) =>
      var ticket := At(c.handles, target);
      if ticket.None? || target == source || source >= |c.handles| then None else Some(Op.Release(ticket.value))
    case GiveUp(k) =>
      var ticket := At(c.handles, k);
      if ticket.None? then None else Some(Op.Release(ticket.value))
  }

  ghost function Stepped(w: World, op: Option<Op>): (w': World)
    requires WellFormed(w)
    ensures WellFormed(w')
  {
    match op
    case None => w
    case Some(op) => StepWellFormed(w, op); Step(w, op).world
  }

  /** The number a new site or ticket gets, if the operation was accepted. */
  ghost function Given(w: World, op: Option<Op>, number: nat): Option<nat>
    requires WellFormed(w)
  {
    if op.Some? && Step(w, op.value).code == Ok then Some(number) else None
  }

  ghost function Obeyed(c: Client, command: Command): (c': Client)
    requires WellFormed(c.world)
    ensures WellFormed(c'.world)
  {
    var op := OpOf(c, command);
    var world := Stepped(c.world, op);
    match command
    case NewChild(i, _) =>
      if i >= |c.budgets| then c
      else Client(world, c.budgets + [Given(c.world, op, |c.world.sites|)], c.handles)
    case Take(i, _) =>
      if i >= |c.budgets| then c
      else Client(world, c.budgets, c.handles + [Given(c.world, op, |c.world.tickets|)])
    case Divide(k, _) =>
      if k >= |c.handles| then c
      else Client(world, c.budgets, c.handles + [Given(c.world, op, |c.world.tickets|)])
    case Settle(k, _) => c.(world := world)
    case Hand(k) =>
      if k >= |c.handles| then c
      else c.(handles := c.handles[k := None] + [c.handles[k]])
    case Replace(target, source) =>
      if target >= |c.handles| || source >= |c.handles| || target == source then c
      else c.(world := world, handles := c.handles[target := c.handles[source]][source := None])
    case GiveUp(k) =>
      if k >= |c.handles| then c
      else c.(world := world, handles := c.handles[k := None])
  }

  ghost function Play(capacity: u64, program: seq<Command>): (c: Client)
    requires capacity > 0
    ensures WellFormed(c.world)
    decreases program
  {
    if program == [] then Client(Start(capacity), [Some(0)], [])
    else Obeyed(Play(capacity, program[..|program| - 1]), program[|program| - 1])
  }

  lemma PlayOne(capacity: u64, program: seq<Command>, command: Command)
    requires capacity > 0
    ensures Play(capacity, program + [command]) == Obeyed(Play(capacity, program), command)
  {
    assert (program + [command])[..|program|] == program;
  }

  /** The operations of a program, in order. */
  ghost function OpsOf(capacity: u64, program: seq<Command>): seq<Op>
    requires capacity > 0
    decreases program
  {
    if program == [] then []
    else
      var before := program[..|program| - 1];
      var op := OpOf(Play(capacity, before), program[|program| - 1]);
      OpsOf(capacity, before) + if op.None? then [] else [op.value]
  }

  lemma ObeyedWorld(c: Client, command: Command)
    requires WellFormed(c.world)
    ensures Obeyed(c, command).world == Stepped(c.world, OpOf(c, command))
  {
  }

  /** So whatever holds of every run of operations holds after every program. */
  lemma {:induction false} PlayIsRun(capacity: u64, program: seq<Command>)
    requires capacity > 0
    ensures Play(capacity, program).world == Run(capacity, OpsOf(capacity, program))
    decreases program
  {
    if program != [] {
      var before := program[..|program| - 1];
      var op := OpOf(Play(capacity, before), program[|program| - 1]);
      hide Obeyed;
      hide Step;
      ObeyedWorld(Play(capacity, before), program[|program| - 1]);
      PlayIsRun(capacity, before);
      if op.Some? {
        RunStep(capacity, OpsOf(capacity, before), op.value);
      } else {
        assert OpsOf(capacity, before) + [] == OpsOf(capacity, before);
      }
    }
  }

  // ------------------------------------------------------------ what the objects show

  ghost function SiteOf(b: Budget): Option<nat> {
    if b.state == null then None else Some(b.state.id)
  }

  ghost function TicketOf(r: Reservation): Option<nat>
    reads r
  {
    if r.state == null then None else Some(r.ticket)
  }

  ghost predicate Shows(h: Hierarchy, budgets: seq<Budget>, rs: seq<Reservation>, c: Client)
    reads h, rs
  {
    && h.Now() == c.world && |budgets| == |c.budgets| && |rs| == |c.handles|
    && (forall i :: 0 <= i < |budgets| ==> SiteOf(budgets[i]) == c.budgets[i])
    && (forall k :: 0 <= k < |rs| ==> TicketOf(rs[k]) == c.handles[k])
  }

  /** Among these reservations are all that hold a charge of h, and no two are one. */
  ghost predicate AllHeld(h: Hierarchy, rs: seq<Reservation>)
    reads h, h.states, h.owners.Values, rs
  {
    && h.Valid() && (forall r :: r in h.owners.Values ==> r in rs)
    && (forall i :: 0 <= i < |rs| ==> HeldBy(h, rs[i]))
    && (forall i, j :: 0 <= i < j < |rs| ==> rs[i] != rs[j])
  }

  ghost predicate HeldBy(h: Hierarchy, r: Reservation)
    reads h, r
  {
    if r.state == null then r.Blank()
    else r.state.hierarchy == h && r.ticket in h.owners && h.owners[r.ticket] == r
  }

  /** These budgets are nodes of h, or none. */
  ghost predicate Offered(h: Hierarchy, budgets: seq<Budget>)
    reads h
  {
    forall i :: 0 <= i < |budgets| && budgets[i].state != null ==>
                  budgets[i].Ok() && budgets[i].state.hierarchy == h && h.Holds(budgets[i].state)
  }

  method ChildOf(h: Hierarchy, budgets: seq<Budget>, rs: seq<Reservation>, i: nat, capacity: u64, ghost c: Client)
    returns (b: Budget)
    requires AllHeld(h, rs) && Offered(h, budgets) && i < |budgets|
    requires Shows(h, budgets, rs, c) && WellFormed(c.world)
    modifies h
    ensures AllHeld(h, rs) && Offered(h, budgets + [b])
    ensures Shows(h, budgets + [b], rs, Obeyed(c, NewChild(i, capacity)))
    ensures h.states == old(h.states) + if b.state == null then [] else [b.state as State]
    ensures b.state != null ==> fresh(b.state)
  {
    hide Hierarchy.Valid;
    hide ChildStep;
    b := budgets[i].Child(capacity);
  }

  method ReserveFrom(h: Hierarchy, budgets: seq<Budget>, rs: seq<Reservation>, i: nat, bytes: u64, ghost c: Client)
    returns (r: Reservation)
    requires AllHeld(h, rs) && Offered(h, budgets) && i < |budgets|
    requires Shows(h, budgets, rs, c) && WellFormed(c.world)
    modifies h, h.states
    ensures AllHeld(h, rs + [r]) && fresh(r) && h.states == old(h.states)
    ensures Shows(h, budgets, rs + [r], Obeyed(c, Take(i, bytes)))
  {
    hide Hierarchy.Valid;
    hide ReserveStep;
    r := budgets[i].Reserve(bytes);
  }

  method PartitionOf(h: Hierarchy, budgets: seq<Budget>, rs: seq<Reservation>, k: nat, bytes: u64, ghost c: Client)
    returns (part: Reservation)
    requires AllHeld(h, rs) && k < |rs|
    requires Shows(h, budgets, rs, c) && WellFormed(c.world)
    modifies h, h.states, rs[k]
    ensures AllHeld(h, rs + [part]) && fresh(part) && h.states == old(h.states)
    ensures Shows(h, budgets, rs + [part], Obeyed(c, Divide(k, bytes)))
  {
    hide Hierarchy.Valid;
    hide PartitionStep;
    if rs[k].state == null {
      h.Strangers(rs[k]);
    }
    part := rs[k].Partition(bytes);
    forall i | 0 <= i < |rs|
      ensures HeldBy(h, rs[i]) && TicketOf(rs[i]) == c.handles[i]
    {
      assert i == k || rs[i].state == old(rs[i].state);
    }
    if rs[k].state == null {
      h.Undisturbed();
    }
  }

  method CommitOf(h: Hierarchy, budgets: seq<Budget>, rs: seq<Reservation>, k: nat, usage: Usage, ghost c: Client)
    requires AllHeld(h, rs) && k < |rs|
    requires Shows(h, budgets, rs, c) && WellFormed(c.world)
    modifies h, h.states, rs[k]
    ensures AllHeld(h, rs) && h.states == old(h.states)
    ensures Shows(h, budgets, rs, Obeyed(c, Settle(k, usage)))
  {
    hide Hierarchy.Valid;
    hide CommitStep;
    if rs[k].state == null {
      h.Strangers(rs[k]);
    }
    var status := rs[k].Commit(usage);
    if rs[k].state == null {
      h.Undisturbed();
    }
  }

  method ReleaseOf(h: Hierarchy, budgets: seq<Budget>, rs: seq<Reservation>, k: nat, ghost c: Client)
    requires AllHeld(h, rs) && k < |rs|
    requires Shows(h, budgets, rs, c) && WellFormed(c.world)
    modifies h, h.states, rs[k]
    ensures AllHeld(h, rs) && h.states == old(h.states)
    ensures Shows(h, budgets, rs, Obeyed(c, GiveUp(k)))
  {
    hide Hierarchy.Valid;
    hide ReleaseStep;
    if rs[k].state == null {
      h.Strangers(rs[k]);
    }
    rs[k].Release();
    if old(rs[k].state) == null {
      h.Undisturbed();
    }
  }

  method MoveOf(h: Hierarchy, budgets: seq<Budget>, rs: seq<Reservation>, k: nat, ghost c: Client)
    returns (moved: Reservation)
    requires AllHeld(h, rs) && k < |rs|
    requires Shows(h, budgets, rs, c) && WellFormed(c.world)
    modifies h, rs[k]
    ensures AllHeld(h, rs + [moved]) && fresh(moved) && h.states == old(h.states)
    ensures Shows(h, budgets, rs + [moved], Obeyed(c, Hand(k)))
  {
    hide Hierarchy.Valid;
    if rs[k].state == null {
      h.Strangers(rs[k]);
    }
    moved := new Reservation.Moved(rs[k]);
    if moved.state == null {
      h.Undisturbed();
    }
  }

  lemma Replaced(c: Client, k: nat, j: nat)
    requires WellFormed(c.world) && k < |c.handles| && j < |c.handles|
    ensures var c' := Obeyed(c, Replace(k, j));
            && c'.budgets == c.budgets
            && c'.handles == (if k == j then c.handles else c.handles[k := c.handles[j]][j := None])
            && c'.world == (if k == j || c.handles[k].None? then c.world
                            else ReleaseStep(c.world, c.handles[k].value).world)
  {
  }

  method AssignOf(h: Hierarchy, budgets: seq<Budget>, rs: seq<Reservation>, k: nat, j: nat, ghost c: Client)
    requires AllHeld(h, rs) && k < |rs| && j < |rs|
    requires Shows(h, budgets, rs, c) && WellFormed(c.world)
    modifies h, h.states, rs[k], rs[j]
    ensures AllHeld(h, rs) && h.states == old(h.states)
    ensures Shows(h, budgets, rs, Obeyed(c, Replace(k, j)))
  {
    hide Hierarchy.Valid;
    hide Obeyed;
    hide ReleaseStep;
    hide WellFormed;
    Replaced(c, k, j);
    if rs[k].state == null && rs[j].state == null {
      h.Strangers(rs[k]);
      h.Strangers(rs[j]);
    }
    rs[k].Assign(rs[j]);
    forall i | 0 <= i < |rs|
      ensures HeldBy(h, rs[i]) && TicketOf(rs[i]) == Obeyed(c, Replace(k, j)).handles[i]
    {
      assert i == k || i == j || rs[i].state == old(rs[i].state);
    }
    if old(rs[k].state) == null && old(rs[j].state) == null {
      h.Undisturbed();
    }
  }

  lemma GivenUp(c: Client, k: nat)
    requires WellFormed(c.world) && k < |c.handles|
    ensures var c' := Obeyed(c, GiveUp(k));
            |c'.handles| == |c.handles| && c'.handles == c.handles[k := None] && c'.budgets == c.budgets
  {
  }

  ghost function TicketsOf(rs: seq<Reservation>): (r: seq<Option<nat>>)
    reads rs
    ensures |r| == |rs| && forall k :: 0 <= k < |rs| ==> r[k] == TicketOf(rs[k])
  {
    if rs == [] then [] else TicketsOf(rs[..|rs| - 1]) + [TicketOf(rs[|rs| - 1])]
  }

  /** Releasing every reservation there is, whatever each holds, empties the books. */
  method ReleaseAll(h: Hierarchy, rs: seq<Reservation>)
    requires AllHeld(h, rs)
    modifies h, h.states, rs
    ensures h.Valid() && h.states == old(h.states) && Drained(h)
  {
    hide Hierarchy.Valid;
    hide Obeyed;
    ghost var c := Client(h.Now(), [], TicketsOf(rs));
    NowIsWellFormed(h);
    for k := 0 to |rs|
      invariant AllHeld(h, rs) && h.states == old(h.states)
      invariant WellFormed(c.world) && Shows(h, [], rs, c)
      invariant forall i :: 0 <= i < k ==> rs[i].state == null
    {
      GivenUp(c, k);
      ReleaseOf(h, [], rs, k, c);
      c := Obeyed(c, GiveUp(k));
    }
    NobodyHoldsAnything(h);
  }

  lemma NowIsWellFormed(h: Hierarchy)
    requires h.Valid()
    ensures WellFormed(h.Now())
  {
  }

  /** Every call has the effect its command has on what the program sees. */
  method Obey(h: Hierarchy, budgets: seq<Budget>, rs: seq<Reservation>, command: Command, ghost c: Client)
    returns (budgets': seq<Budget>, rs': seq<Reservation>)
    requires AllHeld(h, rs) && Offered(h, budgets)
    requires Shows(h, budgets, rs, c) && WellFormed(c.world)
    modifies h, h.states, rs
    ensures AllHeld(h, rs') && Offered(h, budgets') && budgets <= budgets' && rs <= rs'
    ensures Shows(h, budgets', rs', Obeyed(c, command))
    ensures forall i :: |rs| <= i < |rs'| ==> fresh(rs'[i])
    ensures old(h.states) <= h.states && forall i :: |old(h.states)| <= i < |h.states| ==> fresh(h.states[i])
  {
    hide Hierarchy.Valid;
    hide AllHeld;
    hide Step;
    budgets', rs' := budgets, rs;
    match command
    case NewChild(i, capacity) =>
      if i < |budgets| {
        var b := ChildOf(h, budgets, rs, i, capacity, c);
        budgets' := budgets + [b];
      }
    case Take(i, bytes) =>
      if i < |budgets| {
        var r := ReserveFrom(h, budgets, rs, i, bytes, c);
        rs' := rs + [r];
      }
    case Divide(k, bytes) =>
      if k < |rs| {
        var part := PartitionOf(h, budgets, rs, k, bytes, c);
        rs' := rs + [part];
      }
    case Settle(k, usage) =>
      if k < |rs| {
        CommitOf(h, budgets, rs, k, usage, c);
      }
    case Hand(k) =>
      if k < |rs| {
        var moved := MoveOf(h, budgets, rs, k, c);
        rs' := rs + [moved];
      }
    case Replace(k, j) =>
      if k < |rs| && j < |rs| {
        AssignOf(h, budgets, rs, k, j, c);
      }
    case GiveUp(k) =>
      if k < |rs| {
        ReleaseOf(h, budgets, rs, k, c);
      }
  }

  /** After any program the objects show exactly what its commands come to. */
  method Perform(capacity: u64, program: seq<Command>)
    returns (root: Budget, budgets: seq<Budget>, rs: seq<Reservation>)
    requires capacity > 0
    ensures root.Ok() && root.Valid() && fresh(root.state.hierarchy)
    ensures var h := root.state.hierarchy;
            && AllHeld(h, rs) && Offered(h, budgets) && Shows(h, budgets, rs, Play(capacity, program))
            && 0 < |budgets| && budgets[0] == root
            && (forall i :: 0 <= i < |h.states| ==> fresh(h.states[i]))
            && (forall i :: 0 <= i < |rs| ==> fresh(rs[i]))
  {
    hide Hierarchy.Valid;
    hide Obeyed;
    root := Budget.Create(capacity);
    var h := root.state.hierarchy;
    budgets, rs := [root], [];
    for pc := 0 to |program|
      invariant AllHeld(h, rs) && Offered(h, budgets) && 0 < |budgets| && budgets[0] == root
      invariant Shows(h, budgets, rs, Play(capacity, program[..pc]))
      invariant fresh(h) && (forall i :: 0 <= i < |h.states| ==> fresh(h.states[i]))
      invariant forall i :: 0 <= i < |rs| ==> fresh(rs[i])
    {
      PlayOne(capacity, program[..pc], program[pc]);
      assert program[..pc + 1] == program[..pc] + [program[pc]];
      budgets, rs := Obey(h, budgets, rs, program[pc], Play(capacity, program[..pc]));
    }
    assert program[..|program|] == program;
  }

  function Releases(n: nat): (r: seq<Command>)
    ensures |r| == n
  {
    if n == 0 then [] else Releases(n - 1) + [GiveUp(n - 1)]
  }

  lemma ReleasesGrow(program: seq<Command>, k: nat)
    ensures program + Releases(k + 1) == program + Releases(k) + [GiveUp(k)]
  {
  }

  /** A whole program, from a new root to the last release: the objects show what its
      commands and the releases come to, and nothing is charged at any node. */
  method Lifetime(capacity: u64, program: seq<Command>) returns (root: Budget)
    requires capacity > 0
    ensures root.Ok() && root.Valid() && Drained(root.state.hierarchy)
    ensures var whole := program + Releases(|Play(capacity, program).handles|);
            root.state.hierarchy.Now() == Play(capacity, whole).world == Run(capacity, OpsOf(capacity, whole))
  {
    hide Hierarchy.Valid;
    hide Obeyed;
    hide Play;
    hide OpsOf;
    hide Run;
    var budgets, rs;
    root, budgets, rs := Perform(capacity, program);
    var h, n := root.state.hierarchy, |rs|;
    assert program + [] == program;
    for k := 0 to n
      invariant AllHeld(h, rs) && Offered(h, budgets) && 0 < |budgets| && budgets[0] == root && |rs| == n
      invariant Shows(h, budgets, rs, Play(capacity, program + Releases(k)))
      invariant (forall i :: 0 <= i < |h.states| ==> fresh(h.states[i])) && (forall i :: 0 <= i < |rs| ==> fresh(rs[i]))
      invariant forall i :: 0 <= i < k ==> rs[i].state == null
    {
      ghost var c := Play(capacity, program + Releases(k));
      ReleasesGrow(program, k);
      PlayOne(capacity, program + Releases(k), GiveUp(k));
      GivenUp(c, k);
      budgets, rs := Obey(h, budgets, rs, GiveUp(k), c);
    }
    NobodyHoldsAnything(h);
    PlayIsRun(capacity, program + Releases(n));
  }
}
