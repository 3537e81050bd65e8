/** The built-in worker pool (node/src/runtime/backend.cpp) as interleaved atomic
    steps of the calling thread, which is worker 0, and width - 1 pool threads.
    Every read or write of a shared field is a step of its own. */
module WorkerPool {
  import opened Words

  /** What one call of Run was given: how many partitions, and which task. */
  datatype Job = Job(count: u32, task: nat)

  /** Where a thread is, with the locals it holds there. */
  datatype Pc =
    // WorkerLoop
    | Load
    | Compare(current: u64)
    | Blocked
    | CheckStop(current: u64)
    // Work
    | Loop(index: u32, successes: u32)
    | Invoke(index: u32, successes: u32)
    | Catch(index: u32, successes: u32)
    | Record(successes: u32)
    | Leave
    // Run
    | Idle
    | WriteCount
    | WriteTask
    | ResetFailed
    | ResetStats
    | ResetLive
    | Publish
    | LoadLive
    | WaitLive(seen: u32)
    | Finish
    // the destructor
    | BumpStop
    | Join
    | Exited

  datatype Call = Call(worker: nat, index: nat, task: nat)

  /** The shared fields; what happened in the current Run; the whole pool. */
  datatype Memory = Memory(
    generation: u64, live: u32, failed: bool, stop: bool, count: u32, task: nat, perWorker: seq<u32>)

  datatype History = History(
    job: Job, left: set<nat>, calls: multiset<Call>, threw: set<nat>, result: Option<bool>)

  datatype Pool = Pool(width: u32, mem: Memory, seen: seq<u64>, pcs: seq<Pc>, log: History)

  datatype Request = Start(job: Job) | Close

  /** One scheduling decision: which thread moves, and what the outside does. */
  datatype Act = Act(thread: nat, throws: bool, request: Request)

  function Initial(width: u32): Pool
    requires width > 0
  {
    Pool(width,
         Memory(0, 0, false, false, 0, 0, seq(width, _ => 0)),
         seq(width, _ => 0),
         seq(width, v => if v == 0 then Idle else Load),
         History(Job(0, 0), {}, multiset{}, {}, None))
  }

  predicate Enabled(s: Pool, a: Act)
    requires |s.pcs| == s.width == |s.seen|
  {
    && a.thread < s.width
    && match s.pcs[a.thread]
       case Blocked => s.mem.generation != s.seen[a.thread]
       case WaitLive(seen) => s.mem.live != seen
       case Join => forall w :: 0 < w < s.width ==> s.pcs[w] == Exited
       case Exited => false
       case _ => true
  }

  function Moved(s: Pool, v: nat, pc: Pc): Pool
    requires v < |s.pcs|
  {
    s.(pcs := s.pcs[v := pc])
  }

  // Unsigned wrap-around, written without a modulus.

  function NextGeneration(g: u64): u64 {
    if g == U64_MAX then 0 else g + 1
  }

  function Minus1(n: u32): u32 {
    if n == 0 then TWO_32 - 1 else n - 1
  }

  predicate Sized(s: Pool) {
    |s.pcs| == s.width == |s.seen| == |s.mem.perWorker|
  }

  predicate WaitingPc(pc: Pc) {
    pc.Load? || pc.Compare? || pc.Blocked? || pc.CheckStop?
  }

  predicate Working(pc: Pc) {
    pc.Loop? || pc.Invoke? || pc.Catch? || pc.Record? || pc.Leave?
  }

  /** WorkerLoop, outside Work. */
  function WaitStep(s: Pool, v: nat): Pool
    requires Sized(s) && v < s.width && WaitingPc(s.pcs[v])
  {
    match s.pcs[v]
    case Load => Moved(s, v, Compare(s.mem.generation))
    case Compare(current) => Moved(s, v, if current == s.seen[v] && !s.mem.stop then Blocked else CheckStop(current))
    case Blocked => Moved(s, v, Load)
    case CheckStop(current) =>
      if s.mem.stop then Moved(s, v, Exited) else Moved(s.(seen := s.seen[v := current]), v, Loop(v, 0))
  }

  /** Work: the strided loop, the statistics slot, and the decrement of `live`. */
  function WorkStep(s: Pool, v: nat, throws: bool): Pool
    requires Sized(s) && v < s.width && Working(s.pcs[v])
  {
    match s.pcs[v]
    case Loop(index, n) => Moved(s, v, if index < s.mem.count then Invoke(index, n) else Record(n))
    case Invoke(index, n) =>
      var calls := s.log.calls + multiset{Call(v, index, s.mem.task)};
      if throws then Moved(s.(log := s.log.(calls := calls, threw := s.log.threw + {index as nat})), v, Catch(index, n))
      else Moved(s.(log := s.log.(calls := calls)), v, Loop(WrapAdd32(index, s.width), WrapAdd32(n, 1)))
    case Catch(index, n) => Moved(s.(mem := s.mem.(failed := true)), v, Loop(WrapAdd32(index, s.width), n))
    case Record(n) => Moved(s.(mem := s.mem.(perWorker := s.mem.perWorker[v := n])), v, Leave)
    case Leave =>
      Moved(s.(mem := s.mem.(live := Minus1(s.mem.live)), log := s.log.(left := s.log.left + {v})), v,
            if v == 0 then LoadLive else Load)
  }

  /** Run outside Work, and the destructor. */
  function CallerStep(s: Pool, a: Act): Pool
    requires Sized(s) && Enabled(s, a) && !WaitingPc(s.pcs[a.thread]) && !Working(s.pcs[a.thread])
  {
    var v := a.thread;
    match s.pcs[v]
    case Idle =>
      if a.request.Close? then Moved(s.(mem := s.mem.(stop := true)), v, BumpStop)
      else Moved(s.(log := s.log.(job := a.request.job, calls := multiset{}, threw := {})), v, WriteCount)
    case WriteCount => Moved(s.(mem := s.mem.(count := s.log.job.count)), v, WriteTask)
    case WriteTask => Moved(s.(mem := s.mem.(task := s.log.job.task)), v, ResetFailed)
    case ResetFailed => Moved(s.(mem := s.mem.(failed := false)), v, ResetStats)
    case ResetStats => Moved(s.(mem := s.mem.(perWorker := seq(s.width, _ => 0))), v, ResetLive)
    case ResetLive => Moved(s.(mem := s.mem.(live := s.width), log := s.log.(left := {})), v, Publish)
    case Publish => Moved(s.(mem := s.mem.(generation := NextGeneration(s.mem.generation))), v, Loop(0, 0))
    case LoadLive => Moved(s, v, if s.mem.live == 0 then Finish else WaitLive(s.mem.live))
    case WaitLive(_) => Moved(s, v, LoadLive)
    case Finish => Moved(s.(log := s.log.(result := Some(!s.mem.failed))), v, Idle)
    case BumpStop => Moved(s.(mem := s.mem.(generation := NextGeneration(s.mem.generation))), v, Join)
    case Join => Moved(s, v, Exited)
  }

  function Do(s: Pool, a: Act): Pool
    requires Sized(s) && Enabled(s, a)
  {
    if WaitingPc(s.pcs[a.thread]) then WaitStep(s, a.thread)
    else if Working(s.pcs[a.thread]) then WorkStep(s, a.thread, a.throws)
    else CallerStep(s, a)
  }

  // ---------------------------------------------------------------- invariant

  /** Run has published its job and not yet returned. */
  predicate Active(pc: Pc) {
    Working(pc) || pc.LoadLive? || pc.WaitLive? || pc.Finish?
  }

  predicate Closing(pc: Pc) {
    pc.BumpStop? || pc.Join? || pc.Exited?
  }

  predicate CallerPc(pc: Pc) {
    !pc.Load? && !pc.Compare? && !pc.Blocked? && !pc.CheckStop?
  }

  function Previous(generation: u64): u64 {
    if generation == 0 then U64_MAX else generation - 1
  }

  /** A pool thread that has nothing left to do in the published generation. */
  predicate Resting(s: Pool, v: nat)
    requires v < |s.pcs| && v < |s.seen|
  {
    && s.seen[v] == s.mem.generation
    && (s.pcs[v] == Load || s.pcs[v] == Compare(s.mem.generation) || s.pcs[v] == Blocked)
  }

  /** A pool thread that has not yet noticed the published generation. */
  predicate Unaware(s: Pool, v: nat)
    requires v < |s.pcs| && v < |s.seen|
  {
    && s.seen[v] == Previous(s.mem.generation)
    && (|| s.pcs[v] == Load || s.pcs[v] == Blocked
        || s.pcs[v] == Compare(s.mem.generation) || s.pcs[v] == Compare(Previous(s.mem.generation))
        || s.pcs[v] == CheckStop(s.mem.generation))
  }

  /** A pool thread while the pool shuts down. */
  predicate Departing(s: Pool, v: nat)
    requires v < |s.pcs| && v < |s.seen| && 0 < |s.pcs|
  {
    && s.seen[v] == (if s.pcs[0] == BumpStop then s.mem.generation else Previous(s.mem.generation))
    && (s.pcs[v].Load? || s.pcs[v].Compare? || s.pcs[v].Blocked? || s.pcs[v].CheckStop? || s.pcs[v].Exited?)
  }

  predicate ThreadOk(s: Pool, v: nat)
    requires v < |s.pcs| && v < |s.seen| && 0 < |s.pcs|
  {
    if v == 0 then
      && CallerPc(s.pcs[0])
      && (Working(s.pcs[0]) ==> 0 !in s.log.left)
      && (Active(s.pcs[0]) && !Working(s.pcs[0]) ==> 0 in s.log.left)
    else if Closing(s.pcs[0]) then Departing(s, v)
    else if Active(s.pcs[0]) && v !in s.log.left then Unaware(s, v) || (Working(s.pcs[v])
          && s.seen[v] == s.mem.generation)
    else Resting(s, v)
  }

  /** The locals of a thread inside Work. */
  predicate WorkOk(s: Pool, v: nat)
    requires v < |s.pcs| && s.width > 0
  {
    match s.pcs[v]
    case Loop(index, _) => index % s.width == v && index < s.log.job.count + s.width
    case Invoke(index, _) => index % s.width == v && index < s.log.job.count
    case Catch(index, _) => index % s.width == v && index < s.log.job.count
    case _ => true
  }

  /** A partition that is invoked is one of the job's. */
  predicate InRange(s: Pool, v: nat)
    requires v < |s.pcs|
  {
    s.pcs[v].Invoke? || s.pcs[v].Catch? ==> s.pcs[v].index < s.log.job.count
  }

  /** Thread v has invoked its partitions below this index, and no others. */
  function Progress(s: Pool, v: nat): nat
    requires v < |s.pcs|
  {
    match s.pcs[v]
    case Loop(index, _) => index
    case Invoke(index, _) => index
    case Catch(index, _) => index + 1
    case Record(_) => s.log.job.count
    case Leave => s.log.job.count
    case _ => if v in s.log.left then s.log.job.count else 0
  }

  function Expected(s: Pool, c: Call): nat
    requires s.width > 0
  {
    if && c.worker < |s.pcs| && c.task == s.log.job.task
       && c.index % s.width == c.worker && c.index < s.log.job.count && c.index < Progress(s, c.worker)
    then 1 else 0
  }

  ghost predicate CallsOk(s: Pool)
    requires s.width > 0
  {
    forall c: Call :: s.log.calls[c] == Expected(s, c)
  }

  /** A throw belongs to a partition its thread has been through; it is recorded in
      `failed`, or about to be by that thread. */
  ghost predicate ThrowOk(s: Pool, k: nat)
    requires s.width > 0 && |s.pcs| == s.width
  {
    var pc := s.pcs[k % s.width];
    && k < s.log.job.count && k < Progress(s, k % s.width)
    && (s.mem.failed || (pc.Catch? && pc.index == k))
  }

  ghost predicate CatchOk(s: Pool, v: nat)
    requires v < |s.pcs|
  {
    s.pcs[v].Catch? ==> (s.pcs[v].index as nat) in s.log.threw
  }

  ghost predicate FailuresOk(s: Pool)
    requires s.width > 0 && |s.pcs| == s.width
  {
    forall k :: k in s.log.threw ==> ThrowOk(s, k)
  }

  ghost predicate Catching(s: Pool, v: nat, k: nat)
    requires v < |s.pcs|
  {
    s.pcs[v].Catch? && s.pcs[v].index == k
  }

  /** `failed` is set only after a throw, and after every throw but those some thread is
      just about to record. */
  ghost predicate Reported(s: Pool)
    requires |s.pcs| == s.width
  {
    && (s.mem.failed ==> s.log.threw != {})
    && (forall k :: k in s.log.threw ==> s.mem.failed || exists v :: 0 <= v < s.width && Catching(s, v, k))
    && (forall v :: 0 <= v < s.width ==> CatchOk(s, v))
  }

  /** How many of thread v's partitions below `upto` did not throw. */
  function Tally(width: nat, v: nat, upto: nat, threw: set<nat>): nat
    requires width > 0
  {
    if upto == 0 then 0
    else Tally(width, v, upto - 1, threw) + (if (upto - 1) % width == v && upto - 1 !in threw then 1 else 0)
  }

  /** The successes a thread has counted, or has stored before leaving, are those
      among the partitions it has been through. */
  ghost predicate StatsOk(s: Pool, v: nat)
    requires s.width > 0 && v < |s.pcs| && v < |s.mem.perWorker|
  {
    var pc, count := s.pcs[v], s.log.job.count;
    && (pc.Loop? ==> pc.successes == Tally(s.width, v, pc.index, s.log.threw))
    && (pc.Invoke? ==> pc.successes == Tally(s.width, v, pc.index, s.log.threw))
    && (pc.Catch? ==> pc.successes == Tally(s.width, v, pc.index, s.log.threw))
    && (pc.Record? ==> pc.successes == Tally(s.width, v, count, s.log.threw))
    && (pc.Leave? || (!Working(pc) && v in s.log.left) ==>
          s.mem.perWorker[v] == Tally(s.width, v, count, s.log.threw))
  }

  ghost predicate Shaped(s: Pool) {
    s.width > 0 && |s.pcs| == s.width == |s.seen| == |s.mem.perWorker|
  }

  /** The strided index of the current Run stays within its word. */
  predicate Fits(s: Pool) {
    s.log.job.count + s.width <= TWO_32
  }

  /** What the caller has already put in place on its way to Publish. */
  ghost predicate SetupOk(s: Pool)
    requires Shaped(s)
  {
    var pc := s.pcs[0];
    && (pc.WriteCount? || pc.WriteTask? || pc.ResetFailed? || pc.ResetStats? || pc.ResetLive? || pc.Publish? ==>
          s.log.calls == multiset{} && s.log.threw == {})
    && (pc.WriteTask? || pc.ResetFailed? || pc.ResetStats? || pc.ResetLive? || pc.Publish? ==>
          s.mem.count == s.log.job.count)
    && (pc.ResetFailed? || pc.ResetStats? || pc.ResetLive? || pc.Publish? ==> s.mem.task == s.log.job.task)
    && (pc.ResetStats? || pc.ResetLive? || pc.Publish? ==> !s.mem.failed)
    && (pc.Publish? ==> s.mem.live == s.width && s.log.left == {})
  }

  /** The count of remaining threads follows the set of those that have left. */
  ghost predicate LiveOk(s: Pool)
    requires Shaped(s)
  {
    && s.mem.count == s.log.job.count && s.mem.task == s.log.job.task
    && (forall v :: v in s.log.left ==> v < s.width)
    && s.mem.live == s.width - |s.log.left|
    && (s.pcs[0].Finish? ==> s.mem.live == 0)
    && (s.pcs[0].WaitLive? ==> s.mem.live <= s.pcs[0].seen && s.pcs[0].seen > 0)
  }

  /** What holds of a Run whose index does not wrap. */
  ghost predicate Exact(s: Pool)
    requires Shaped(s)
  {
    && (forall v :: 0 <= v < s.width ==> WorkOk(s, v))
    && (Active(s.pcs[0]) ==> CallsOk(s) && FailuresOk(s) && forall v :: 0 <= v < s.width ==> StatsOk(s, v))
  }

  // A Run whose index wraps: the owner of the last partition comes back to an earlier
  // one, which that partition's own thread begins with.

  function LastOwner(s: Pool): nat
    requires s.width > 0 && !Fits(s)
  {
    (s.log.job.count - 1) % s.width
  }

  function Repeated(s: Pool): (k: nat)
    requires s.width > 0 && !Fits(s)
    ensures k < s.width && k < s.log.job.count - 1
  {
    s.log.job.count - 1 + s.width - TWO_32
  }

  function RepeatedCall(s: Pool, worker: nat): Call
    requires s.width > 0 && !Fits(s)
  {
    Call(worker, Repeated(s), s.log.job.task)
  }

  /** The first thread of the repeated partition has invoked it, or is about to. */
  ghost predicate FirstOk(s: Pool)
    requires Shaped(s) && !Fits(s)
  {
    var k := Repeated(s);
    var pc := s.pcs[k];
    || RepeatedCall(s, k) in s.log.calls
    || ((pc.Loop? || pc.Invoke?) && pc.index == k)
    || (!Working(pc) && k !in s.log.left)
  }

  /** The owner of the last partition has come back to the repeated one. */
  ghost predicate Returned(s: Pool)
    requires Shaped(s) && !Fits(s)
  {
    var k, owner := Repeated(s), LastOwner(s);
    RepeatedCall(s, owner) in s.log.calls && (owner == k ==> s.log.calls[RepeatedCall(s, k)] >= 2)
  }

  /** It is still on its way to the last partition. */
  ghost predicate Advancing(s: Pool)
    requires Shaped(s) && !Fits(s)
  {
    var pc := s.pcs[LastOwner(s)];
    && (pc.Loop? || pc.Invoke? || pc.Catch?)
    && pc.index % s.width == LastOwner(s) && pc.index < s.log.job.count
  }

  /** It has wrapped, and the repeated partition is next. */
  ghost predicate Returning(s: Pool)
    requires Shaped(s) && !Fits(s)
  {
    var k, owner := Repeated(s), LastOwner(s);
    var pc := s.pcs[owner];
    (pc.Loop? || pc.Invoke?) && pc.index == k && (owner == k ==> RepeatedCall(s, k) in s.log.calls)
  }

  ghost predicate ReturnOk(s: Pool)
    requires Shaped(s) && !Fits(s)
  {
    || Returned(s) || Returning(s) || Advancing(s)
    || (!Working(s.pcs[LastOwner(s)]) && LastOwner(s) !in s.log.left)
  }

  ghost predicate Wrapping(s: Pool)
    requires Shaped(s) && !Fits(s)
  {
    Active(s.pcs[0]) ==> FirstOk(s) && ReturnOk(s)
  }

  ghost predicate Inv(s: Pool) {
    && Shaped(s)
    && (s.mem.stop <==> Closing(s.pcs[0]))
    && (forall v :: 0 <= v < s.width ==> ThreadOk(s, v))
    && (forall v :: 0 <= v < s.width ==> InRange(s, v))
    && SetupOk(s)
    && (Active(s.pcs[0]) ==> LiveOk(s) && Reported(s))
    && (if Fits(s) then Exact(s) else Wrapping(s))
  }

  lemma InitialInv(width: u32)
    requires width > 0
    ensures Inv(Initial(width))
  {
  }

  // Each clause of the invariant, for one thread or one call at a time.

  ghost predicate Near(s: Pool, a: Act, v: nat) {
    && Shaped(s) && Enabled(s, a) && v < s.width
    && (s.mem.stop <==> Closing(s.pcs[0]))
    && ThreadOk(s, 0) && ThreadOk(s, v) && ThreadOk(s, a.thread)
  }

  lemma WaitingKeepsThread(s: Pool, a: Act, v: nat)
    requires Near(s, a, v) && WaitingPc(s.pcs[a.thread])
    ensures ThreadOk(Do(s, a), v)
  {
    hide WorkStep;
    hide CallerStep;
  }

  lemma WorkingKeepsThread(s: Pool, a: Act, v: nat)
    requires Near(s, a, v) && Working(s.pcs[a.thread])
    ensures ThreadOk(Do(s, a), v)
  {
    hide WaitStep;
    hide CallerStep;
  }

  predicate SettingUp(pc: Pc) {
    pc.Idle? || pc.WriteCount? || pc.WriteTask? || pc.ResetFailed? || pc.ResetStats? || pc.ResetLive?
  }

  lemma OnlyCallerSetsUp(s: Pool, a: Act, v: nat)
    requires Near(s, a, v) && SettingUp(s.pcs[a.thread])
    ensures a.thread == 0
  {
  }

  lemma SetupKeepsCaller(s: Pool, a: Act)
    requires Near(s, a, 0) && a.thread == 0 && SettingUp(s.pcs[0])
    ensures ThreadOk(Do(s, a), 0)
  {
    hide WaitStep;
    hide WorkStep;
  }

  lemma SetupKeepsOthers(s: Pool, a: Act, v: nat)
    requires Near(s, a, v) && a.thread == 0 && SettingUp(s.pcs[0]) && v != 0
    ensures ThreadOk(Do(s, a), v)
  {
    hide WaitStep;
    hide WorkStep;
    hide Unaware;
    assert Resting(s, v);
  }

  lemma SetupKeepsThread(s: Pool, a: Act, v: nat)
    requires Near(s, a, v) && SettingUp(s.pcs[a.thread])
    ensures ThreadOk(Do(s, a), v)
  {
    OnlyCallerSetsUp(s, a, v);
    hide Do;
    hide ThreadOk;
    if v == 0 {
      SetupKeepsCaller(s, a);
    } else {
      SetupKeepsOthers(s, a, v);
    }
  }

  lemma CallerKeepsThread(s: Pool, a: Act, v: nat)
    requires Near(s, a, v) && CallerPc(s.pcs[a.thread]) && !Working(s.pcs[a.thread]) && !SettingUp(s.pcs[a.thread])
    requires SetupOk(s) && (s.pcs[0].Finish? ==> v in s.log.left)
    ensures ThreadOk(Do(s, a), v)
  {
  }

  lemma StepKeepsThread(s: Pool, a: Act, v: nat)
    requires Inv(s) && Enabled(s, a) && v < s.width
    ensures ThreadOk(Do(s, a), v)
  {
    assert ThreadOk(s, 0) && ThreadOk(s, v) && ThreadOk(s, a.thread);
    var pc := s.pcs[a.thread];
    if WaitingPc(pc) {
      WaitingKeepsThread(s, a, v);
    } else if Working(pc) {
      WorkingKeepsThread(s, a, v);
    } else if SettingUp(pc) {
      SetupKeepsThread(s, a, v);
    } else {
      if pc.Finish? {
        AllLeft(s);
      }
      CallerKeepsThread(s, a, v);
    }
  }

  /** live reaches zero exactly when every thread has left the generation. */
  lemma AllLeft(s: Pool)
    requires Shaped(s) && LiveOk(s) && s.mem.live == 0
    ensures forall v :: 0 <= v < s.width ==> v in s.log.left
  {
    assert s.log.left <= NatsBelow(s.width);
    SubsetSize(s.log.left, NatsBelow(s.width));
  }

  lemma SomeoneStays(s: Pool, v: nat)
    requires Shaped(s) && LiveOk(s) && v < s.width && v !in s.log.left
    ensures s.mem.live > 0
  {
    if s.mem.live == 0 {
      AllLeft(s);
    }
  }

  lemma SameResidue(i: nat, k: nat, w: nat)
    requires w > 0 && i % w == k % w && i <= k < i + w
    ensures i == k
  {
    var d := k / w - i / w;
    MulMonotone(1, d, w);
    MulMonotone(d, -1, w);
    assert d * w == k - i by {
      assert k == k / w * w + k % w && i == i / w * w + i % w;
    }
  }

  lemma WorkingKeepsWorkOk(s: Pool, a: Act)
    requires Near(s, a, a.thread) && Fits(s) && WorkOk(s, a.thread) && Working(s.pcs[a.thread])
    requires s.mem.count == s.log.job.count
    ensures WorkOk(Do(s, a), a.thread)
  {
    match s.pcs[a.thread]
    case Invoke(index, _) => ModEqual(index + s.width, index, 1, s.width);
    case Catch(index, _) => ModEqual(index + s.width, index, 1, s.width);
    case _ =>
  }

  lemma OthersKeepWorkOk(s: Pool, a: Act, v: nat)
    requires Near(s, a, v) && WorkOk(s, v) && v != a.thread
    requires Working(s.pcs[v]) ==> !s.pcs[a.thread].Idle?
    ensures WorkOk(Do(s, a), v)
  {
  }

  lemma EnteringWorkOk(s: Pool, a: Act)
    requires Near(s, a, a.thread) && !Working(s.pcs[a.thread])
    ensures WorkOk(Do(s, a), a.thread)
  {
    DivUnique(a.thread, s.width, 0, a.thread);
  }

  /** Only a new Run changes the job, and nobody works when it starts. */
  lemma JobStays(s: Pool, a: Act, v: nat)
    requires Inv(s) && Enabled(s, a) && v < s.width
    ensures !s.pcs[a.thread].Idle? ==> Do(s, a).log.job == s.log.job
    ensures s.pcs[a.thread].Idle? ==> !Working(Do(s, a).pcs[v])
    ensures Do(s, a).width == s.width
  {
    assert ThreadOk(s, 0) && ThreadOk(s, v) && ThreadOk(s, a.thread);
  }

  lemma StepKeepsRange(s: Pool, a: Act, v: nat)
    requires Inv(s) && Enabled(s, a) && v < s.width
    ensures InRange(Do(s, a), v)
  {
    JobStays(s, a, v);
    assert ThreadOk(s, 0) && ThreadOk(s, v) && ThreadOk(s, a.thread) && InRange(s, v);
  }

  lemma StepKeepsWorkOk(s: Pool, a: Act, v: nat)
    requires Inv(s) && Enabled(s, a) && v < s.width && Fits(Do(s, a))
    ensures WorkOk(Do(s, a), v)
  {
    JobStays(s, a, v);
    if !s.pcs[a.thread].Idle? {
      assert ThreadOk(s, 0) && ThreadOk(s, v) && ThreadOk(s, a.thread) && WorkOk(s, v);
      if v != a.thread {
        OthersKeepWorkOk(s, a, v);
      } else if Working(s.pcs[v]) {
        WorkingKeepsWorkOk(s, a);
      } else {
        EnteringWorkOk(s, a);
      }
    }
  }

  /** The step of a working thread accounts for its own calls. */
  lemma WorkingKeepsCall(s: Pool, a: Act, c: Call)
    requires Near(s, a, a.thread) && Fits(s) && WorkOk(s, a.thread) && Working(s.pcs[a.thread])
    requires s.mem.count == s.log.job.count && s.mem.task == s.log.job.task && s.log.calls[c] == Expected(s, c)
    ensures Do(s, a).log.calls[c] == Expected(Do(s, a), c)
  {
    hide WaitStep;
    hide CallerStep;
    hide ThreadOk;
    var v := a.thread;
    if c.worker == v && c.index % s.width == v {
      match s.pcs[v]
      case Invoke(index, _) =>
        if index <= c.index < index + s.width {
          SameResidue(index, c.index, s.width);
        }
      case Catch(index, _) =>
        if index <= c.index < index + s.width {
          SameResidue(index, c.index, s.width);
        }
      case _ =>
    }
  }

  lemma WaitingKeepsCall(s: Pool, a: Act, c: Call)
    requires Near(s, a, a.thread) && !Working(s.pcs[a.thread]) && Active(s.pcs[0])
    requires s.log.calls[c] == Expected(s, c)
    ensures Do(s, a).log.calls[c] == Expected(Do(s, a), c)
  {
    var v := a.thread;
    if c.worker == v && s.pcs[v].CheckStop? && c.index < v {
      DivUnique(c.index, s.width, 0, c.index);
    }
  }

  lemma OwnThrow(s: Pool, a: Act, k: nat)
    requires Near(s, a, a.thread) && Fits(s) && WorkOk(s, a.thread) && Working(s.pcs[a.thread])
    requires k % s.width == a.thread
    requires s.mem.count == s.log.job.count && k in Do(s, a).log.threw
    requires k in s.log.threw ==> ThrowOk(s, k)
    ensures ThrowOk(Do(s, a), k)
  {
  }

  lemma OthersKeepThrow(s: Pool, a: Act, k: nat)
    requires Near(s, a, a.thread) && WorkOk(s, a.thread) && Working(s.pcs[a.thread]) && k % s.width != a.thread
    requires k in Do(s, a).log.threw
    requires k in s.log.threw ==> ThrowOk(s, k)
    ensures ThrowOk(Do(s, a), k)
  {
  }

  lemma WaitingKeepsThrow(s: Pool, a: Act, k: nat)
    requires Near(s, a, a.thread) && !Working(s.pcs[a.thread]) && !s.pcs[a.thread].Finish? && Active(s.pcs[0])
    requires k in Do(s, a).log.threw
    requires k in s.log.threw ==> ThrowOk(s, k)
    ensures ThrowOk(Do(s, a), k)
  {
  }

  lemma StepKeepsThrow(s: Pool, a: Act, k: nat)
    requires Near(s, a, a.thread) && Fits(s) && WorkOk(s, a.thread) && Active(s.pcs[0]) && !s.pcs[a.thread].Finish?
    requires s.mem.count == s.log.job.count && k in Do(s, a).log.threw
    requires k in s.log.threw ==> ThrowOk(s, k)
    ensures ThrowOk(Do(s, a), k)
  {
    if !Working(s.pcs[a.thread]) {
      WaitingKeepsThrow(s, a, k);
    } else if k % s.width == a.thread {
      OwnThrow(s, a, k);
    } else {
      OthersKeepThrow(s, a, k);
    }
  }

  lemma StepKeepsCatch(s: Pool, a: Act, v: nat)
    requires Near(s, a, v) && CatchOk(s, v) && Active(s.pcs[0])
    ensures CatchOk(Do(s, a), v)
  {
  }

  lemma StepKeepsFailed(s: Pool, a: Act)
    requires Near(s, a, a.thread) && CatchOk(s, a.thread) && Active(s.pcs[0]) && !s.pcs[a.thread].Finish?
    requires s.mem.failed ==> s.log.threw != {}
    ensures Do(s, a).mem.failed ==> Do(s, a).log.threw != {}
  {
  }

  lemma ActiveStepKeepsFailures(s: Pool, a: Act)
    requires Inv(s) && Fits(s) && Enabled(s, a) && Active(s.pcs[0]) && Active(Do(s, a).pcs[0])
    ensures FailuresOk(Do(s, a))
  {
    var s' := Do(s, a);
    var v := a.thread;
    assert ThreadOk(s, 0) && ThreadOk(s, v) && WorkOk(s, v) && !s.pcs[v].Finish?;
    forall k | k in s'.log.threw
      ensures ThrowOk(s', k)
    {
      StepKeepsThrow(s, a, k);
    }
  }

  lemma StepKeepsCaught(s: Pool, a: Act, k: nat)
    requires Near(s, a, a.thread) && Active(s.pcs[0]) && Active(Do(s, a).pcs[0]) && k in Do(s, a).log.threw
    requires k in s.log.threw ==> s.mem.failed || exists v :: 0 <= v < s.width && Catching(s, v, k)
    ensures Do(s, a).mem.failed || exists v :: 0 <= v < s.width && Catching(Do(s, a), v, k)
  {
    var s', t := Do(s, a), a.thread;
    if k in s.log.threw && !s.mem.failed {
      var v :| 0 <= v < s.width && Catching(s, v, k);
      assert v != t ==> Catching(s', v, k);
    } else if k !in s.log.threw {
      assert Catching(s', t, k);
    }
  }

  lemma ActiveStepKeepsReported(s: Pool, a: Act)
    requires Inv(s) && Enabled(s, a) && Active(s.pcs[0]) && Active(Do(s, a).pcs[0])
    ensures |Do(s, a).pcs| == Do(s, a).width && Reported(Do(s, a))
  {
    hide Catching;
    hide CatchOk;
    var s' := Do(s, a);
    assert ThreadOk(s, 0) && ThreadOk(s, a.thread) && CatchOk(s, a.thread) && !s.pcs[a.thread].Finish?;
    StepKeepsFailed(s, a);
    forall k | k in s'.log.threw
      ensures s'.mem.failed || exists v :: 0 <= v < s'.width && Catching(s', v, k)
    {
      StepKeepsCaught(s, a, k);
    }
    forall v | 0 <= v < s.width
      ensures CatchOk(s', v)
    {
      assert ThreadOk(s, v) && CatchOk(s, v);
      StepKeepsCatch(s, a, v);
    }
  }

  lemma PublishMakesReported(s: Pool, a: Act)
    requires Inv(s) && Enabled(s, a) && s.pcs[a.thread].Publish?
    ensures |Do(s, a).pcs| == Do(s, a).width && Reported(Do(s, a))
  {
    assert ThreadOk(s, 0) && ThreadOk(s, a.thread);
    forall v | 0 <= v < s.width
      ensures CatchOk(Do(s, a), v)
    {
      assert ThreadOk(s, v);
    }
  }

  lemma {:induction false} TallyBounded(width: nat, v: nat, upto: nat, threw: set<nat>)
    requires width > 0
    ensures Tally(width, v, upto, threw) <= upto
  {
    if upto > 0 {
      TallyBounded(width, v, upto - 1, threw);
    }
  }

  /** Only the thread's own partitions below the bound matter. */
  lemma {:induction false} TallyIgnores(width: nat, v: nat, upto: nat, threw: set<nat>, k: nat)
    requires width > 0 && (k >= upto || k % width != v)
    ensures Tally(width, v, upto, threw + {k}) == Tally(width, v, upto, threw)
  {
    if upto > 0 {
      TallyIgnores(width, v, upto - 1, threw, k);
    }
  }

  lemma {:induction false} TallySkips(width: nat, v: nat, index: nat, upto: nat, threw: set<nat>)
    requires width > 0 && index % width == v && index < upto <= index + width
    ensures Tally(width, v, upto, threw) == Tally(width, v, index, threw) + (if index in threw then 0 else 1)
    decreases upto
  {
    if upto > index + 1 {
      TallySkips(width, v, index, upto - 1, threw);
      if (upto - 1) % width == v {
        SameResidue(index, upto - 1, width);
      }
    }
  }

  lemma {:induction false} TallyPast(width: nat, v: nat, count: nat, index: nat, threw: set<nat>)
    requires width > 0 && index % width == v && count <= index < count + width
    ensures Tally(width, v, index, threw) == Tally(width, v, count, threw)
    decreases index
  {
    TallyStalls(width, v, count, index, index, threw);
  }

  lemma {:induction false} TallyStalls(width: nat, v: nat, count: nat, upto: nat, index: nat, threw: set<nat>)
    requires width > 0 && index % width == v && count <= upto <= index < count + width
    ensures Tally(width, v, upto, threw) == Tally(width, v, count, threw)
    decreases upto
  {
    if upto > count {
      TallyStalls(width, v, count, upto - 1, index, threw);
      if (upto - 1) % width == v {
        SameResidue(upto - 1, index, width);
      }
    }
  }

  /** A throw in another thread leaves a thread's own tally alone. */
  lemma StatsIgnoreOthers(s: Pool, v: nat, k: nat)
    requires s.width > 0 && v < |s.pcs| && v < |s.mem.perWorker| && StatsOk(s, v) && k % s.width != v
    ensures StatsOk(s.(log := s.log.(threw := s.log.threw + {k})), v)
  {
    var pc, w := s.pcs[v], s.width;
    TallyIgnores(w, v, s.log.job.count, s.log.threw, k);
    if pc.Loop? || pc.Invoke? || pc.Catch? {
      TallyIgnores(w, v, pc.index, s.log.threw, k);
    }
  }

  lemma StatsCarry(s: Pool, s': Pool, v: nat)
    requires Sized(s) && Sized(s') && s'.width == s.width > v && StatsOk(s, v) && s'.pcs[v] == s.pcs[v]
    requires s'.log.job == s.log.job && s'.log.threw == s.log.threw && s'.mem.perWorker[v] == s.mem.perWorker[v]
    requires v in s'.log.left ==> v in s.log.left
    ensures StatsOk(s', v)
  {
  }

  /** What a step of another thread leaves to thread v, and the throw it may add. */
  ghost predicate Spared(s: Pool, s': Pool, a: Act, v: nat)
    requires Shaped(s) && a.thread < s.width && v < s.width
  {
    && Shaped(s') && s'.width == s.width && s'.pcs[v] == s.pcs[v] && s'.log.job == s.log.job
    && s'.mem.perWorker[v] == s.mem.perWorker[v] && (v in s'.log.left ==> v in s.log.left)
    && s'.log.threw == (if s.pcs[a.thread].Invoke? && a.throws then s.log.threw + {s.pcs[a.thread].index as nat}
                        else s.log.threw)
  }

  lemma StepSpares(s: Pool, a: Act, v: nat)
    requires Shaped(s) && Enabled(s, a) && v < s.width && v != a.thread
    requires !s.pcs[a.thread].Idle? && !s.pcs[a.thread].ResetStats? && !s.pcs[a.thread].ResetLive?
    ensures Spared(s, Do(s, a), a, v)
  {
    if WaitingPc(s.pcs[a.thread]) {
      WaitSpares(s, a, v);
    } else if Working(s.pcs[a.thread]) {
      WorkSpares(s, a, v);
    }
  }

  lemma WaitSpares(s: Pool, a: Act, v: nat)
    requires Shaped(s) && Enabled(s, a) && v < s.width && v != a.thread && WaitingPc(s.pcs[a.thread])
    ensures Spared(s, Do(s, a), a, v)
  {
  }

  lemma WorkSpares(s: Pool, a: Act, v: nat)
    requires Shaped(s) && Enabled(s, a) && v < s.width && v != a.thread && Working(s.pcs[a.thread])
    ensures Spared(s, Do(s, a), a, v)
  {
  }

  lemma OthersKeepStats(s: Pool, a: Act, v: nat)
    requires Near(s, a, v) && WorkOk(s, a.thread) && StatsOk(s, v) && v != a.thread
    requires !s.pcs[a.thread].Idle? && !s.pcs[a.thread].ResetStats? && !s.pcs[a.thread].ResetLive?
    ensures StatsOk(Do(s, a), v)
  {
    hide StatsOk;
    hide Do;
    StepSpares(s, a, v);
    if s.pcs[a.thread].Invoke? && a.throws {
      var k: nat := s.pcs[a.thread].index;
      StatsIgnoreOthers(s, v, k);
      StatsCarry(s.(log := s.log.(threw := s.log.threw + {k})), Do(s, a), v);
    } else {
      StatsCarry(s, Do(s, a), v);
    }
  }

  lemma OwnStats(s: Pool, a: Act)
    requires Near(s, a, a.thread) && Fits(s) && WorkOk(s, a.thread) && StatsOk(s, a.thread) && Working(s.pcs[a.thread])
    requires s.mem.count == s.log.job.count
    requires s.pcs[a.thread].Catch? ==> (s.pcs[a.thread].index as nat) in s.log.threw
    requires s.pcs[a.thread].Invoke? ==> (s.pcs[a.thread].index as nat) !in s.log.threw
    ensures StatsOk(Do(s, a), a.thread)
  {
    var w, v, threw := s.width, a.thread, s.log.threw;
    match s.pcs[v]
    case Invoke(index, n) =>
      if a.throws {
        TallyIgnores(w, v, index, threw, index);
      } else {
        TallySkips(w, v, index, index + w, threw);
        TallyBounded(w, v, index + w, threw);
      }
    case Catch(index, n) => TallySkips(w, v, index, index + w, threw);
    case Loop(index, n) =>
      if index >= s.mem.count {
        TallyPast(w, v, s.mem.count, index, threw);
      }
    case _ =>
  }

  lemma EnteringStats(s: Pool, a: Act)
    requires Near(s, a, a.thread) && StatsOk(s, a.thread) && !Working(s.pcs[a.thread])
    requires Active(s.pcs[0]) && !s.pcs[a.thread].Finish?
    ensures StatsOk(Do(s, a), a.thread)
  {
    if s.pcs[a.thread].CheckStop? {
      DivUnique(a.thread, s.width, 0, a.thread);
      TallyStalls(s.width, a.thread, 0, a.thread, a.thread, s.log.threw);
    }
  }

  lemma NotYetThrown(s: Pool, v: nat)
    requires Shaped(s) && FailuresOk(s) && v < s.width && WorkOk(s, v)
    ensures s.pcs[v].Invoke? ==> (s.pcs[v].index as nat) !in s.log.threw
  {
    forall k | k in s.log.threw
      ensures !(s.pcs[v].Invoke? && s.pcs[v].index == k)
    {
      assert ThrowOk(s, k);
    }
  }

  lemma ActiveStepKeepsStats(s: Pool, a: Act, v: nat)
    requires Inv(s) && Fits(s) && Enabled(s, a) && Active(s.pcs[0]) && Active(Do(s, a).pcs[0]) && v < s.width
    ensures StatsOk(Do(s, a), v)
  {
    assert ThreadOk(s, 0) && ThreadOk(s, a.thread) && WorkOk(s, a.thread) && CatchOk(s, a.thread) && StatsOk(s, v);
    if v != a.thread {
      assert ThreadOk(s, v);
      OthersKeepStats(s, a, v);
    } else if Working(s.pcs[v]) {
      NotYetThrown(s, v);
      OwnStats(s, a);
    } else {
      EnteringStats(s, a);
    }
  }

  lemma StepKeepsShape(s: Pool, a: Act)
    requires Near(s, a, a.thread)
    ensures Shaped(Do(s, a))
    ensures Do(s, a).mem.stop <==> Closing(Do(s, a).pcs[0])
  {
  }

  lemma CallerKeepsSetup(s: Pool, a: Act)
    requires Near(s, a, 0) && SetupOk(s) && a.thread == 0 && Shaped(Do(s, a))
    ensures SetupOk(Do(s, a))
  {
    if Working(s.pcs[0]) {
      WorkKeepsSetup(s, a);
    } else {
      hide WaitStep;
      hide WorkStep;
      assert SetupOk(Do(s, a));
    }
  }

  lemma WorkKeepsSetup(s: Pool, a: Act)
    requires Near(s, a, 0) && a.thread == 0 && Working(s.pcs[0]) && Shaped(Do(s, a))
    ensures SetupOk(Do(s, a))
  {
    hide WaitStep;
    hide CallerStep;
  }

  lemma OthersKeepSetup(s: Pool, a: Act)
    requires Near(s, a, a.thread) && SetupOk(s) && a.thread != 0 && Shaped(Do(s, a))
    ensures SetupOk(Do(s, a))
  {
  }

  lemma StepKeepsSetup(s: Pool, a: Act)
    requires Inv(s) && Enabled(s, a)
    ensures Shaped(Do(s, a)) && SetupOk(Do(s, a))
    ensures Do(s, a).mem.stop <==> Closing(Do(s, a).pcs[0])
  {
    assert ThreadOk(s, 0) && ThreadOk(s, a.thread);
    StepKeepsShape(s, a);
    if a.thread == 0 {
      CallerKeepsSetup(s, a);
    } else {
      OthersKeepSetup(s, a);
    }
  }

  lemma LeavingCounts(s: Pool, v: nat)
    requires Shaped(s) && LiveOk(s) && v < s.width && v !in s.log.left
    ensures Minus1(s.mem.live) == s.width - |s.log.left + {v}|
  {
    SomeoneStays(s, v);
  }

  lemma ActiveStepKeepsCalls(s: Pool, a: Act)
    requires Inv(s) && Fits(s) && Enabled(s, a) && Active(s.pcs[0])
    ensures CallsOk(Do(s, a))
  {
    var v := a.thread;
    assert ThreadOk(s, 0) && ThreadOk(s, v) && WorkOk(s, v);
    forall c: Call | true
      ensures Do(s, a).log.calls[c] == Expected(Do(s, a), c)
    {
      assert s.log.calls[c] == Expected(s, c);
      if Working(s.pcs[v]) {
        WorkingKeepsCall(s, a, c);
      } else {
        WaitingKeepsCall(s, a, c);
      }
    }
  }

  lemma WorkingKeepsLive(s: Pool, a: Act)
    requires Near(s, a, 0) && LiveOk(s) && Working(s.pcs[a.thread])
    requires s.mem.live > 0 && Minus1(s.mem.live) == s.width - |s.log.left + {a.thread}|
    ensures Shaped(Do(s, a)) && LiveOk(Do(s, a))
  {
  }

  lemma WaitingKeepsLive(s: Pool, a: Act)
    requires Near(s, a, 0) && LiveOk(s) && !Working(s.pcs[a.thread])
    requires Active(s.pcs[0]) && Active(Do(s, a).pcs[0])
    ensures Shaped(Do(s, a)) && LiveOk(Do(s, a))
  {
  }

  lemma ActiveStepKeepsLive(s: Pool, a: Act)
    requires Inv(s) && Enabled(s, a) && Active(s.pcs[0]) && Active(Do(s, a).pcs[0])
    ensures Shaped(Do(s, a)) && LiveOk(Do(s, a))
  {
    var v := a.thread;
    assert ThreadOk(s, 0) && ThreadOk(s, v);
    if Working(s.pcs[v]) {
      SomeoneStays(s, v);
      LeavingCounts(s, v);
      WorkingKeepsLive(s, a);
    } else {
      WaitingKeepsLive(s, a);
    }
  }

  lemma ActiveStepKeepsExact(s: Pool, a: Act)
    requires Inv(s) && Fits(s) && Enabled(s, a) && Active(s.pcs[0]) && Active(Do(s, a).pcs[0])
    ensures var s' := Do(s, a);
            Shaped(s') && CallsOk(s') && FailuresOk(s') && forall v :: 0 <= v < s.width ==> StatsOk(s', v)
  {
    ActiveStepKeepsLive(s, a);
    ActiveStepKeepsCalls(s, a);
    ActiveStepKeepsFailures(s, a);
    forall w | 0 <= w < s.width
      ensures StatsOk(Do(s, a), w)
    {
      ActiveStepKeepsStats(s, a, w);
    }
  }

  lemma PublishMakesExact(s: Pool, a: Act)
    requires Inv(s) && Enabled(s, a) && s.pcs[a.thread].Publish?
    ensures var s' := Do(s, a);
            Shaped(s') && CallsOk(s') && FailuresOk(s') && forall v :: 0 <= v < s.width ==> StatsOk(s', v)
  {
    var s' := Do(s, a);
    assert ThreadOk(s, 0) && ThreadOk(s, a.thread);
    forall c: Call | true
      ensures s'.log.calls[c] == Expected(s', c)
    {
      if c.worker < s.width {
        assert ThreadOk(s, c.worker);
      }
    }
    forall w | 0 <= w < s.width
      ensures StatsOk(s', w)
    {
      assert ThreadOk(s, w);
      if w == 0 {
        DivUnique(0, s.width, 0, 0);
      }
    }
  }

  lemma StepKeepsExact(s: Pool, a: Act)
    requires Inv(s) && Enabled(s, a) && Fits(Do(s, a))
    ensures Shaped(Do(s, a)) && Exact(Do(s, a))
  {
    StepKeepsSetup(s, a);
    forall v | 0 <= v < s.width
      ensures WorkOk(Do(s, a), v)
    {
      StepKeepsWorkOk(s, a, v);
    }
    if Active(Do(s, a).pcs[0]) {
      assert ThreadOk(s, 0) && ThreadOk(s, a.thread);
      JobStays(s, a, 0);
      if Active(s.pcs[0]) {
        ActiveStepKeepsExact(s, a);
      } else {
        PublishMakesExact(s, a);
      }
    }
  }

  // ------------------------------------------------------- when the index wraps

  /** An active step keeps the job and every call made so far. */
  lemma CallsGrow(s: Pool, a: Act)
    requires Near(s, a, a.thread) && Active(s.pcs[0]) && Active(Do(s, a).pcs[0])
    ensures var s' := Do(s, a);
            && s'.width == s.width && s'.log.job == s.log.job
            && s.log.calls <= s'.log.calls && s.log.left <= s'.log.left
  {
  }

  lemma StepKeepsFirst(s: Pool, a: Act)
    requires Near(s, a, a.thread) && LiveOk(s) && !Fits(s) && FirstOk(s)
    requires Active(s.pcs[0]) && Active(Do(s, a).pcs[0])
    ensures Shaped(Do(s, a)) && !Fits(Do(s, a)) && FirstOk(Do(s, a))
  {
    CallsGrow(s, a);
    if a.thread == Repeated(s) {
      OwnerKeepsFirst(s, a);
    } else {
      hide Do;
      StepSpares(s, a, Repeated(s));
    }
  }

  lemma OwnerKeepsFirst(s: Pool, a: Act)
    requires Near(s, a, a.thread) && LiveOk(s) && !Fits(s) && FirstOk(s) && a.thread == Repeated(s)
    requires Active(s.pcs[0]) && Active(Do(s, a).pcs[0])
    ensures Shaped(Do(s, a)) && !Fits(Do(s, a)) && FirstOk(Do(s, a))
  {
    CallsGrow(s, a);
  }

  /** The owner's next index is its next partition, or after the last the repeated one. */
  lemma NextOfOwner(s: Pool, index: u32)
    requires Shaped(s) && !Fits(s) && index % s.width == LastOwner(s) && index < s.log.job.count
    ensures var next := WrapAdd32(index, s.width);
            if index == s.log.job.count - 1 then next == Repeated(s)
            else next == index + s.width && next % s.width == LastOwner(s) && next < s.log.job.count
  {
    if index + s.width > s.log.job.count - 1 {
      SameResidue(index, s.log.job.count - 1, s.width);
    } else {
      ModEqual(index + s.width, index, 1, s.width);
    }
  }

  lemma OwnReturn(s: Pool, a: Act)
    requires Near(s, a, a.thread) && LiveOk(s) && !Fits(s) && FirstOk(s) && ReturnOk(s)
    requires Active(s.pcs[0]) && Active(Do(s, a).pcs[0])
    requires a.thread == LastOwner(s) && Working(s.pcs[a.thread]) && !Returned(s)
    ensures Shaped(Do(s, a)) && !Fits(Do(s, a)) && ReturnOk(Do(s, a))
  {
    CallsGrow(s, a);
    var s', pc := Do(s, a), s.pcs[a.thread];
    if Returning(s) {
      if pc.Invoke? {
        assert Returned(s');
      } else {
        assert Returning(s');
      }
    } else {
      NextOfOwner(s, pc.index);
      if pc.Loop? || (pc.Invoke? && a.throws) || pc.index != s.log.job.count - 1 {
        assert Advancing(s');
      } else {
        assert Returning(s');
      }
    }
  }

  lemma EnteringReturn(s: Pool, a: Act)
    requires Near(s, a, a.thread) && LiveOk(s) && !Fits(s) && ReturnOk(s)
    requires Active(s.pcs[0]) && Active(Do(s, a).pcs[0])
    requires a.thread == LastOwner(s) && !Working(s.pcs[a.thread]) && !Returned(s)
    ensures Shaped(Do(s, a)) && !Fits(Do(s, a)) && ReturnOk(Do(s, a))
  {
    CallsGrow(s, a);
    DivUnique(a.thread, s.width, 0, a.thread);
    if s.log.job.count - 1 < s.width {
      DivUnique(s.log.job.count - 1, s.width, 0, s.log.job.count - 1);
    }
  }

  lemma ReturnedStays(s: Pool, a: Act)
    requires Near(s, a, a.thread) && !Fits(s) && Returned(s) && Active(s.pcs[0]) && Active(Do(s, a).pcs[0])
    ensures Shaped(Do(s, a)) && !Fits(Do(s, a)) && Returned(Do(s, a))
  {
    CallsGrow(s, a);
  }

  lemma ReturnCarries(s: Pool, s': Pool)
    requires Shaped(s) && Shaped(s') && s'.width == s.width && s'.log.job == s.log.job && !Fits(s) && ReturnOk(s)
    requires s.log.calls <= s'.log.calls && s'.pcs[LastOwner(s)] == s.pcs[LastOwner(s)]
    requires LastOwner(s) in s'.log.left ==> LastOwner(s) in s.log.left
    ensures ReturnOk(s')
  {
  }

  lemma OthersKeepReturn(s: Pool, a: Act)
    requires Near(s, a, a.thread) && !Fits(s) && ReturnOk(s)
    requires Active(s.pcs[0]) && Active(Do(s, a).pcs[0]) && a.thread != LastOwner(s)
    ensures Shaped(Do(s, a)) && !Fits(Do(s, a)) && ReturnOk(Do(s, a))
  {
    CallsGrow(s, a);
    ReturnCarries(s, Do(s, a));
  }

  lemma StepKeepsReturn(s: Pool, a: Act)
    requires Near(s, a, a.thread) && LiveOk(s) && !Fits(s) && FirstOk(s) && ReturnOk(s)
    requires Active(s.pcs[0]) && Active(Do(s, a).pcs[0])
    ensures Shaped(Do(s, a)) && !Fits(Do(s, a)) && ReturnOk(Do(s, a))
  {
    if Returned(s) {
      ReturnedStays(s, a);
    } else if a.thread != LastOwner(s) {
      OthersKeepReturn(s, a);
    } else if Working(s.pcs[a.thread]) {
      OwnReturn(s, a);
    } else {
      EnteringReturn(s, a);
    }
  }

  lemma PublishMakesWrapping(s: Pool, a: Act)
    requires Inv(s) && Enabled(s, a) && s.pcs[a.thread].Publish? && !Fits(s)
    ensures Shaped(Do(s, a)) && !Fits(Do(s, a)) && Wrapping(Do(s, a))
  {
    assert ThreadOk(s, 0) && ThreadOk(s, a.thread) && ThreadOk(s, Repeated(s)) && ThreadOk(s, LastOwner(s));
    DivUnique(0, s.width, 0, 0);
  }

  lemma StepKeepsWrapping(s: Pool, a: Act)
    requires Inv(s) && Enabled(s, a) && !Fits(Do(s, a))
    ensures Shaped(Do(s, a)) && Wrapping(Do(s, a))
  {
    StepKeepsSetup(s, a);
    assert ThreadOk(s, 0) && ThreadOk(s, a.thread);
    JobStays(s, a, 0);
    if Active(Do(s, a).pcs[0]) {
      if Active(s.pcs[0]) {
        StepKeepsFirst(s, a);
        StepKeepsReturn(s, a);
      } else {
        PublishMakesWrapping(s, a);
      }
    }
  }

  // ------------------------------------------------------------------- every step

  lemma StepKeepsActive(s: Pool, a: Act)
    requires Inv(s) && Enabled(s, a) && Shaped(Do(s, a)) && Active(Do(s, a).pcs[0])
    ensures LiveOk(Do(s, a)) && Reported(Do(s, a))
  {
    hide Exact;
    hide Wrapping;
    assert ThreadOk(s, 0) && ThreadOk(s, a.thread);
    if Active(s.pcs[0]) {
      ActiveStepKeepsLive(s, a);
      ActiveStepKeepsReported(s, a);
    } else {
      PublishMakesReported(s, a);
    }
  }

  /** Every step of every thread keeps the invariant. */
  lemma StepKeepsInv(s: Pool, a: Act)
    requires Inv(s) && Enabled(s, a)
    ensures Inv(Do(s, a))
  {
    hide Exact;
    hide Wrapping;
    hide LiveOk;
    hide Reported;
    hide SetupOk;
    hide ThreadOk;
    hide InRange;
    StepKeepsSetup(s, a);
    forall v | 0 <= v < s.width
      ensures ThreadOk(Do(s, a), v) && InRange(Do(s, a), v)
    {
      StepKeepsThread(s, a, v);
      StepKeepsRange(s, a, v);
    }
    JobStays(s, a, 0);
    if Active(Do(s, a).pcs[0]) {
      StepKeepsActive(s, a);
    }
    if Fits(Do(s, a)) {
      StepKeepsExact(s, a);
    } else {
      StepKeepsWrapping(s, a);
    }
  }

  // ------------------------------------------------------------- whole schedules

  /** states[i + 1] is what acts[i] makes of states[i]. */
  ghost predicate Schedule(width: u32, states: seq<Pool>, acts: seq<Act>)
    requires width > 0
  {
    && |states| == |acts| + 1 && states[0] == Initial(width)
    && (forall i :: 0 <= i < |states| ==> Sized(states[i]) && states[i].width == width)
    && (forall i :: 0 <= i < |acts| ==> Enabled(states[i], acts[i]))
    && (forall i :: 0 <= i < |acts| ==> states[i + 1] == Do(states[i], acts[i]))
  }

  lemma {:induction false} EveryScheduleKeepsInv(width: u32, states: seq<Pool>, acts: seq<Act>, i: nat)
    requires width > 0 && Schedule(width, states, acts) && i < |states|
    ensures Inv(states[i])
  {
    if i == 0 {
      InitialInv(width);
    } else {
      EveryScheduleKeepsInv(width, states, acts, i - 1);
      StepKeepsInv(states[i - 1], acts[i - 1]);
      assert states[i - 1 + 1] == Do(states[i - 1], acts[i - 1]);
    }
  }

  /** Every partition was invoked once, by thread index mod width, with the Run's task,
      and nothing else was invoked. */
  ghost predicate ExactlyOnce(s: Pool)
    requires s.width > 0
  {
    forall c: Call ::
      s.log.calls[c] == if c.task == s.log.job.task && c.index < s.log.job.count && c.worker == c.index % s.width
                        then 1 else 0
  }

  /** Partition k was invoked at least twice. */
  ghost predicate InvokedTwice(s: Pool, k: nat) {
    exists c: Call, d: Call :: c.index == k && d.index == k && multiset{c, d} <= s.log.calls
  }

  /** When Run is about to return, in any interleaving, and the index does not wrap:
      every partition was invoked exactly once; every thread has left the generation;
      each statistics slot counts that thread's invocations that did not throw; and the
      result is true exactly when no invocation threw. */
  lemma RunInvokesEachPartitionOnce(width: u32, states: seq<Pool>, acts: seq<Act>, i: nat, a: Act)
    requires width > 0 && Schedule(width, states, acts) && i < |states|
    requires states[i].pcs[0].Finish? && a.thread == 0 && Fits(states[i])
    ensures var s := states[i];
            && ExactlyOnce(s)
            && (forall v :: 0 <= v < s.width ==> v in s.log.left)
            && |s.mem.perWorker| == s.width
            && (forall v :: 0 <= v < s.width ==> s.mem.perWorker[v] == Tally(s.width, v, s.log.job.count, s.log.threw))
            && Enabled(s, a) && Do(s, a).log.result == Some(s.log.threw == {})
  {
    var s := states[i];
    EveryScheduleKeepsInv(width, states, acts, i);
    AllLeft(s);
    forall v | 0 <= v < s.width
      ensures !Working(s.pcs[v])
      ensures s.mem.perWorker[v] == Tally(s.width, v, s.log.job.count, s.log.threw)
    {
      assert ThreadOk(s, v) && StatsOk(s, v);
    }
    forall c: Call | true
      ensures s.log.calls[c] == if c.task == s.log.job.task && c.index < s.log.job.count && c.worker == c.index % width
                                then 1 else 0
    {
      assert s.log.calls[c] == Expected(s, c);
    }
  }

  /** Whether or not the index wraps: when Run is about to return every thread has left,
      and the result is true exactly when no invocation threw. */
  lemma RunReportsThrows(width: u32, states: seq<Pool>, acts: seq<Act>, i: nat, a: Act)
    requires width > 0 && Schedule(width, states, acts) && i < |states|
    requires states[i].pcs[0].Finish? && a.thread == 0
    ensures var s := states[i];
            && (forall v :: 0 <= v < s.width ==> v in s.log.left)
            && Enabled(s, a) && Do(s, a).log.result == Some(s.log.threw == {})
  {
    var s := states[i];
    EveryScheduleKeepsInv(width, states, acts, i);
    AllLeft(s);
    forall v | 0 <= v < s.width
      ensures !Working(s.pcs[v])
    {
      assert ThreadOk(s, v);
    }
    assert forall v: nat, k: nat :: v < s.width ==> !Catching(s, v, k);
  }

  /** When it does wrap and the Run nevertheless comes to return, some partition was
      invoked twice. */
  lemma WrappedRunInvokesTwice(width: u32, states: seq<Pool>, acts: seq<Act>, i: nat)
    requires width > 0 && Schedule(width, states, acts) && i < |states|
    requires states[i].pcs[0].Finish? && !Fits(states[i])
    ensures var s := states[i];
            && Repeated(s) == s.log.job.count + width - 1 - TWO_32 && Repeated(s) < s.log.job.count
            && InvokedTwice(s, Repeated(s))
  {
    var s := states[i];
    EveryScheduleKeepsInv(width, states, acts, i);
    AllLeft(s);
    var k, owner := Repeated(s), LastOwner(s);
    assert ThreadOk(s, k) && ThreadOk(s, owner);
    var c, d := RepeatedCall(s, k), RepeatedCall(s, owner);
    assert c.index == k && d.index == k && multiset{c, d} <= s.log.calls;
  }

  lemma TwiceIsNotOnce(s: Pool, k: nat)
    requires s.width > 0 && InvokedTwice(s, k)
    ensures !ExactlyOnce(s)
  {
    var c: Call, d: Call :| c.index == k && d.index == k && multiset{c, d} <= s.log.calls;
    assert s.log.calls[c] >= multiset{c, d}[c] && s.log.calls[d] >= multiset{c, d}[d];
  }

  /** The largest power of two that divides w: what w and 2^32 have in common. */
  function TwoPart(w: nat): (g: nat)
    requires w > 0
    ensures 1 <= g <= w
  {
    if w % 2 == 1 then 1 else 2 * TwoPart(w / 2)
  }

  lemma {:induction false} TwoPartDivides(w: nat, bits: nat)
    requires 0 < w < Pow2(bits)
    ensures w % TwoPart(w) == 0 && Pow2(bits) % TwoPart(w) == 0
    ensures w / TwoPart(w) % 2 == 1
    decreases w
  {
    if w % 2 == 0 {
      TwoPartDivides(w / 2, bits - 1);
      var h, g := w / 2, TwoPart(w / 2);
      Doubled(h, g);
      Doubled(Pow2(bits - 1), g);
    }
  }

  lemma Doubled(h: nat, g: nat)
    requires g > 0 && h % g == 0
    ensures 2 * h % (2 * g) == 0 && 2 * h / (2 * g) == h / g
  {
    assert h == h / g * g;
    assert 2 * h == h / g * (2 * g);
    DivUnique(2 * h, 2 * g, h / g, 0);
  }

  /** Every thread of the Run comes past the last partition at some time. */
  predicate Ends(s: Pool)
    requires s.width > 0
  {
    s.log.job.count + TwoPart(s.width) <= TWO_32
  }

  // Otherwise the Run never returns: the owner of the last partition goes round
  // partitions that are as far from the last as the common power of two, for ever.

  ghost predicate Circling(s: Pool)
    requires Shaped(s) && !Fits(s)
  {
    var pc, g := s.pcs[LastOwner(s)], TwoPart(s.width);
    || (&& (pc.Loop? || pc.Invoke? || pc.Catch?)
        && pc.index % g == (s.log.job.count - 1) % g && pc.index < s.log.job.count)
    || (!Working(pc) && LastOwner(s) !in s.log.left)
  }

  lemma WidthIsShared(w: u32)
    requires w > 0
    ensures w % TwoPart(w) == 0 && TWO_32 % TwoPart(w) == 0
  {
    Pow2Values();
    TwoPartDivides(w, 32);
  }

  /** Adding multiples of g changes no remainder by g. */
  lemma SameRemainder(a: nat, b: nat, g: nat)
    requires g > 0 && a % g == 0 && b % g == 0
    ensures forall x: int :: (x + a) % g == x % g && (x + a - b) % g == x % g
  {
    forall x: int | true
      ensures (x + a) % g == x % g && (x + a - b) % g == x % g
    {
      assert a == a / g * g && b == b / g * g;
      ModEqual(x + a, x, a / g, g);
      assert (a / g - b / g) * g == a / g * g - b / g * g;
      ModEqual(x + a - b, x, a / g - b / g, g);
    }
  }

  lemma ApartByMultiple(x: nat, y: nat, g: nat)
    requires g > 0 && x % g == y % g && x < y
    ensures x + g <= y
  {
    if y < x + g {
      SameResidue(x, y, g);
    }
  }

  lemma CircleStep(s: Pool, index: u32)
    requires Shaped(s) && !Ends(s) && index < s.log.job.count
    requires index % TwoPart(s.width) == (s.log.job.count - 1) % TwoPart(s.width)
    ensures var next := WrapAdd32(index, s.width);
            next % TwoPart(s.width) == (s.log.job.count - 1) % TwoPart(s.width) && next < s.log.job.count
  {
    var g, next := TwoPart(s.width), WrapAdd32(index, s.width);
    WidthIsShared(s.width);
    SameRemainder(s.width, TWO_32, g);
    if next >= s.log.job.count {
      ApartByMultiple(s.log.job.count - 1, next, g);
    }
  }

  lemma RemainderKeeps(x: nat, w: nat, g: nat)
    requires w > 0 && g > 0 && w % g == 0
    ensures x % w % g == x % g && x % w <= x
  {
    var q, k := x / w, w / g;
    assert x == q * w + x % w && w == k * g;
    MulMonotone(0, q, w);
    Regroup(q, k, g);
    ModEqual(x, x % w, q * k, g);
  }

  lemma Regroup(q: int, k: int, g: int)
    ensures q * (k * g) == q * k * g
  {
  }

  lemma OwnerIsApart(s: Pool)
    requires Shaped(s) && !Fits(s)
    ensures LastOwner(s) % TwoPart(s.width) == (s.log.job.count - 1) % TwoPart(s.width)
    ensures LastOwner(s) < s.log.job.count && LastOwner(s) < s.width
  {
    WidthIsShared(s.width);
    RemainderKeeps(s.log.job.count - 1, s.width, TwoPart(s.width));
  }

  lemma CallerStaysActive(s: Pool, a: Act)
    requires Near(s, a, a.thread) && Active(s.pcs[0]) && Active(Do(s, a).pcs[0]) && !Working(s.pcs[a.thread])
    ensures Working(Do(s, a).pcs[a.thread]) ==> Do(s, a).pcs[a.thread] == Loop(a.thread, 0)
    ensures a.thread in Do(s, a).log.left ==> a.thread in s.log.left
  {
  }

  lemma StepKeepsCircling(s: Pool, a: Act)
    requires Near(s, a, a.thread) && LiveOk(s) && !Ends(s) && !Fits(s) && Circling(s)
    requires Active(s.pcs[0]) && Active(Do(s, a).pcs[0])
    ensures Shaped(Do(s, a)) && !Fits(Do(s, a)) && Circling(Do(s, a))
  {
    CallsGrow(s, a);
    if a.thread == LastOwner(s) {
      if Working(s.pcs[a.thread]) {
        CircleStep(s, s.pcs[a.thread].index);
      } else {
        OwnerIsApart(s);
        CallerStaysActive(s, a);
      }
    } else {
      hide Do;
      StepSpares(s, a, LastOwner(s));
    }
  }

  lemma EndsMeansFits(s: Pool)
    requires Shaped(s)
    ensures Fits(s) ==> Ends(s)
  {
  }

  lemma PublishMakesCircling(s: Pool, a: Act)
    requires Inv(s) && Enabled(s, a) && s.pcs[a.thread].Publish? && !Fits(s)
    ensures Shaped(Do(s, a)) && !Fits(Do(s, a)) && Circling(Do(s, a))
  {
    assert ThreadOk(s, 0) && ThreadOk(s, a.thread) && ThreadOk(s, LastOwner(s));
    OwnerIsApart(s);
  }

  lemma StepCircles(s: Pool, a: Act)
    requires Inv(s) && Enabled(s, a)
    requires Active(s.pcs[0]) && !Ends(s) ==> !Fits(s) && Circling(s)
    ensures var s' := Do(s, a);
            Shaped(s') && (Active(s'.pcs[0]) && !Ends(s') ==> !Fits(s') && Circling(s'))
  {
    StepKeepsSetup(s, a);
    assert ThreadOk(s, 0) && ThreadOk(s, a.thread);
    JobStays(s, a, 0);
    EndsMeansFits(Do(s, a));
    if Active(Do(s, a).pcs[0]) && !Ends(Do(s, a)) {
      if Active(s.pcs[0]) {
        StepKeepsCircling(s, a);
      } else {
        PublishMakesCircling(s, a);
      }
    }
  }

  lemma {:induction false} EndlessRunCircles(width: u32, states: seq<Pool>, acts: seq<Act>, i: nat)
    requires width > 0 && Schedule(width, states, acts) && i < |states|
    ensures Shaped(states[i])
    ensures Active(states[i].pcs[0]) && !Ends(states[i]) ==> !Fits(states[i]) && Circling(states[i])
  {
    EveryScheduleKeepsInv(width, states, acts, i);
    if i > 0 {
      EndlessRunCircles(width, states, acts, i - 1);
      EveryScheduleKeepsInv(width, states, acts, i - 1);
      StepCircles(states[i - 1], acts[i - 1]);
      assert states[i - 1 + 1] == Do(states[i - 1], acts[i - 1]);
    }
  }

  /** A Run whose partition count and the common power of two exceed 2^32 never comes
      to return. */
  lemma EndlessRunNeverReturns(width: u32, states: seq<Pool>, acts: seq<Act>, i: nat)
    requires width > 0 && Schedule(width, states, acts) && i < |states|
    requires states[i].width > 0 && !Ends(states[i])
    ensures !states[i].pcs[0].Finish?
  {
    var s := states[i];
    EndlessRunCircles(width, states, acts, i);
    if Active(s.pcs[0]) {
      EveryScheduleKeepsInv(width, states, acts, i);
      assert ThreadOk(s, LastOwner(s));
      if s.mem.live == 0 {
        AllLeft(s);
      }
    }
  }

  /** A Run that comes to return invoked every partition exactly once if and only if its
      partition count and the width together are at most 2^32. */
  lemma ExactlyOnceIff(width: u32, states: seq<Pool>, acts: seq<Act>, i: nat)
    requires width > 0 && Schedule(width, states, acts) && i < |states| && states[i].pcs[0].Finish?
    ensures ExactlyOnce(states[i]) <==> states[i].log.job.count + width <= TWO_32
  {
    if Fits(states[i]) {
      RunInvokesEachPartitionOnce(width, states, acts, i, Act(0, false, Close));
    } else {
      WrappedRunInvokesTwice(width, states, acts, i);
      TwiceIsNotOnce(states[i], Repeated(states[i]));
    }
  }

  /** A thread inside Work reads the job of the Run that is in progress: that Run
      has published it and cannot replace it before the thread leaves. */
  lemma WorkersReadTheCurrentJob(width: u32, states: seq<Pool>, acts: seq<Act>, i: nat, v: nat)
    requires width > 0 && Schedule(width, states, acts) && i < |states|
    requires v < |states[i].pcs| && Working(states[i].pcs[v])
    ensures var s := states[i];
            && Active(s.pcs[0]) && !s.pcs[0].Finish? && s.mem.live > 0
            && s.mem.task == s.log.job.task && s.mem.count == s.log.job.count
            && (v > 0 ==> s.seen[v] == s.mem.generation)
  {
    EveryScheduleKeepsInv(width, states, acts, i);
    assert ThreadOk(states[i], v) && ThreadOk(states[i], 0);
    SomeoneStays(states[i], v);
  }

  // --------------------------------------------------------------------- progress

  predicate InRun(pc: Pc) {
    !pc.Idle? && !Closing(pc)
  }

  /** Until Run returns some thread can move. The caller is never needed to wake
      before `live` is zero, which is when the last thread notifies it. */
  lemma RunNeverBlocks(s: Pool)
    requires Inv(s) && InRun(s.pcs[0])
    ensures exists v :: 0 <= v < s.width && Enabled(s, Act(v, false, Close)) && (s.pcs[v].WaitLive? ==> s.mem.live == 0)
  {
    assert ThreadOk(s, 0);
    if s.pcs[0].WaitLive? && s.mem.live != 0 {
      if forall v :: 0 <= v < s.width ==> v in s.log.left {
        assert NatsBelow(s.width) <= s.log.left;
        SubsetSize(NatsBelow(s.width), s.log.left);
        assert false;
      }
      var v :| 0 <= v < s.width && v !in s.log.left;
      assert ThreadOk(s, v);
      assert Enabled(s, Act(v, false, Close)) && !s.pcs[v].WaitLive?;
    } else {
      assert Enabled(s, Act(0, false, Close));
    }
  }

  /** The destructor too: some thread can move until all have been joined. */
  lemma CloseNeverBlocks(s: Pool)
    requires Inv(s) && Closing(s.pcs[0]) && !s.pcs[0].Exited?
    ensures exists v :: 0 <= v < s.width && Enabled(s, Act(v, false, Close))
  {
    if s.pcs[0].Join? && !Enabled(s, Act(0, false, Close)) {
      var v :| 0 < v < s.width && s.pcs[v] != Exited;
      assert ThreadOk(s, v);
      assert Enabled(s, Act(v, false, Close));
    } else {
      assert Enabled(s, Act(0, false, Close));
    }
  }

  // ------------------------------------------------------------------ termination

  /** An odd number has an inverse modulo each power of two. */
  function OddInverse(a: nat, bits: nat): (u: nat)
    requires a % 2 == 1 && bits >= 1
  {
    if bits == 1 then 1
    else
      var u := OddInverse(a, bits - 1);
      if a * u / Pow2(bits - 1) % 2 == 0 then u else u + Pow2(bits - 1)
  }

  lemma {:induction false} OddInverseInverts(a: nat, bits: nat)
    requires a % 2 == 1 && bits >= 1
    ensures a * OddInverse(a, bits) % Pow2(bits) == 1
  {
    if bits > 1 {
      OddInverseInverts(a, bits - 1);
      InverseDoubles(a, OddInverse(a, bits - 1), Pow2(bits - 1));
    } else {
      assert Pow2(1) == 2 * Pow2(0);
    }
  }

  lemma InverseDoubles(a: nat, u: nat, p: nat)
    requires a % 2 == 1 && p > 1 && a * u % p == 1
    ensures a * (if a * u / p % 2 == 0 then u else u + p) % (2 * p) == 1
  {
    var q := a * u / p;
    assert a * u == q * p + 1;
    if q % 2 == 0 {
      assert q * p == q / 2 * (2 * p);
      DivUnique(a * u, 2 * p, q / 2, 1);
    } else {
      assert a * (u + p) == a * u + a * p;
      assert q * p + a * p == (q + a) / 2 * (2 * p) by {
        assert q + a == (q + a) / 2 * 2;
      }
      DivUnique(a * (u + p), 2 * p, (q + a) / 2, 1);
    }
  }

  /** From this index the stride comes to `count` or beyond within t strides. */
  predicate Hits(width: u32, count: u32, index: u32, t: nat)
    decreases t
  {
    index >= count || (t > 0 && Hits(width, count, WrapAdd32(index, width), t - 1))
  }

  function Strides(width: u32, count: u32, index: u32, t: nat): (r: nat)
    ensures r <= t
    decreases t
  {
    if index >= count || t == 0 then 0 else 1 + Strides(width, count, WrapAdd32(index, width), t - 1)
  }

  lemma {:induction false} StridesStable(width: u32, count: u32, index: u32, t: nat, more: nat)
    requires Hits(width, count, index, t) && t <= more
    ensures Hits(width, count, index, more)
    ensures Strides(width, count, index, more) == Strides(width, count, index, t)
    decreases t
  {
    if index < count {
      StridesStable(width, count, WrapAdd32(index, width), t - 1, more - 1);
    }
  }

  lemma {:induction false} FittingHits(width: u32, count: u32, index: u32, t: nat)
    requires width > 0 && count + width <= TWO_32 && index + t >= count
    ensures Hits(width, count, index, t)
    decreases t
  {
    if index < count {
      FittingHits(width, count, WrapAdd32(index, width), t - 1);
    }
  }

  /** t strides on from an index, modulo 2^32. */
  lemma {:induction false} StrideReaches(width: u32, count: u32, index: u32, t: nat)
    requires (index + t * width) % TWO_32 >= count
    ensures Hits(width, count, index, t)
    decreases t
  {
    if index < count {
      if t == 0 {
        DivUnique(index, TWO_32, 0, index);
      } else {
        var next := WrapAdd32(index, width);
        assert t * width == (t - 1) * width + width;
        ModEqual(index + t * width, next + (t - 1) * width, if next == index + width then 0 else 1, TWO_32);
        StrideReaches(width, count, next, t - 1);
      }
    }
  }

  /** So many strides go forward by no more than the common power of two. */
  function SmallStride(width: u32): (u: nat)
    requires width > 0
  {
    Pow2Values();
    TwoPartDivides(width, 32);
    OddInverse(width / TwoPart(width), 32)
  }

  lemma SmallStrideMoves(width: u32, index: u32, k: nat)
    requires width > 0
    ensures (index + SmallStride(width) * k * width) % TWO_32 == (index + k * TwoPart(width)) % TWO_32
  {
    hide OddInverse;
    var g := TwoPart(width);
    Pow2Values();
    TwoPartDivides(width, 32);
    OddInverseInverts(width / g, 32);
    StrideAlgebra(width / g, g, width, SmallStride(width), k, index);
  }

  lemma StrideAlgebra(a: nat, g: nat, w: nat, u: nat, k: nat, index: nat)
    requires g > 0 && w % g == 0 && a == w / g && a * u % TWO_32 == 1
    ensures (index + u * k * w) % TWO_32 == (index + k * g) % TWO_32
  {
    var kg, q := k * g, a * u / TWO_32;
    assert a * u == q * TWO_32 + 1;
    assert w == a * g;
    assert u * k * (a * g) == a * u * kg by {
      Regroup(u, k, a * g);
      Regroup(k, a, g);
      Regroup(a, u, kg);
      Regroup(a, k, g);
    }
    assert (q * TWO_32 + 1) * kg == q * kg * TWO_32 + kg;
    ModEqual(index + u * k * (a * g), index + kg, q * kg, TWO_32);
  }

  /** How many strides a Run that ends can take from any index. */
  function StrideBound(width: u32, count: u32): nat
    requires width > 0
  {
    if count + width <= TWO_32 then count else SmallStride(width) * TWO_32
  }

  lemma WrappingHits(width: u32, count: u32, index: u32)
    requires width > 0 && count + TwoPart(width) <= TWO_32
    ensures Hits(width, count, index, SmallStride(width) * TWO_32)
  {
    hide TwoPart;
    hide SmallStride;
    hide Hits;
    var g, u := TwoPart(width), SmallStride(width);
    var k := if index >= count then 0 else CeilDiv(count - index, g);
    SmallStepsReach(count, index, g, k);
    SmallStrideMoves(width, index, k);
    StrideReaches(width, count, index, u * k);
    MulBoth(u, u, k, TWO_32);
    StridesStable(width, count, index, u * k, u * TWO_32);
  }

  lemma EndingHits(width: u32, count: u32, index: u32)
    requires width > 0 && count + TwoPart(width) <= TWO_32
    ensures Hits(width, count, index, StrideBound(width, count))
  {
    if count + width <= TWO_32 {
      FittingHits(width, count, index, count);
    } else {
      WrappingHits(width, count, index);
    }
  }

  lemma SmallStepsReach(count: u32, index: u32, g: nat, k: nat)
    requires g > 0 && count + g <= TWO_32 && k == if index >= count then 0 else CeilDiv(count - index, g)
    ensures count <= (index + k * g) % TWO_32 && k <= TWO_32
  {
    if index < count {
      var n := count - index + g - 1;
      assert n == n / g * g + n % g;
      MulMonotone(1, g, k);
    }
    DivUnique(index + k * g, TWO_32, 0, index + k * g);
  }

  function Left(width: u32, count: u32, index: u32): (r: nat)
    requires width > 0
    ensures r <= StrideBound(width, count)
  {
    Strides(width, count, index, StrideBound(width, count))
  }

  /** One stride fewer. */
  lemma LeftFalls(width: u32, count: u32, index: u32)
    requires width > 0 && count + TwoPart(width) <= TWO_32 && index < count
    ensures Left(width, count, index) == 1 + Left(width, count, WrapAdd32(index, width))
  {
    var bound := StrideBound(width, count);
    EndingHits(width, count, index);
    StridesStable(width, count, WrapAdd32(index, width), bound - 1, bound);
  }

  function WorkRank(width: u32, count: u32, pc: Pc): nat
    requires width > 0
  {
    match pc
    case Loop(index, _) => 3 * Left(width, count, index) + 5
    case Invoke(index, _) => 3 * Left(width, count, index) + 4
    case Catch(index, _) => 3 * Left(width, count, index) + 3
    case Record(_) => 4
    case _ => 3
  }

  function CallerRank(s: Pool): nat
    requires |s.pcs| > 0 && s.width > 0
  {
    var pc, far := s.pcs[0], 2 * s.width + 3 * StrideBound(s.width, s.log.job.count);
    match pc
    case WriteCount => far + 14
    case WriteTask => far + 13
    case ResetFailed => far + 12
    case ResetStats => far + 11
    case ResetLive => far + 10
    case Publish => far + 9
    case LoadLive => 2 * s.mem.live + 2
    case WaitLive(seen) => 2 * seen + 1
    case Finish => 1
    case _ => if Working(pc) then 2 * s.width + 3 + WorkRank(s.width, s.log.job.count, pc) else 0
  }

  function ThreadRank(s: Pool, v: nat): nat
    requires Sized(s) && v < s.width
  {
    var pc, far := s.pcs[v], 3 * StrideBound(s.width, s.log.job.count);
    if Working(pc) then WorkRank(s.width, s.log.job.count, pc)
    else if !Active(s.pcs[0]) then (if pc.Load? then far + 12 else if pc.Compare? then far + 11 else far + 10)
    else if s.seen[v] == s.mem.generation then (if pc.Load? then 2 else if pc.Compare? then 1 else 0)
    else
      match pc
      case CheckStop(_) => far + 6
      case Compare(current) => if current == s.mem.generation then far + 7 else far + 10
      case Load => far + 8
      case _ => far + 9
  }

  /** A bound on the steps thread v still takes in this Run. */
  function Rank(s: Pool, v: nat): nat
    requires Sized(s) && v < s.width
  {
    if v == 0 then CallerRank(s) else ThreadRank(s, v)
  }

  function RankSum(s: Pool, n: nat): nat
    requires Sized(s) && n <= s.width
  {
    if n == 0 then 0 else RankSum(s, n - 1) + Rank(s, n - 1)
  }

  lemma WaitStepLowersRank(s: Pool, a: Act)
    requires Near(s, a, a.thread) && WaitingPc(s.pcs[a.thread]) && InRun(s.pcs[0])
    ensures ThreadRank(Do(s, a), a.thread) < ThreadRank(s, a.thread)
  {
  }

  lemma WorkStepLowersRank(s: Pool, a: Act)
    requires Near(s, a, a.thread) && Ends(s) && InRange(s, a.thread) && Working(s.pcs[a.thread])
    requires s.mem.count == s.log.job.count
    ensures Do(s, a).log.job == s.log.job && Do(s, a).width == s.width
    ensures if s.pcs[a.thread].Leave? then true
            else WorkRank(s.width, s.log.job.count, Do(s, a).pcs[a.thread])
                 < WorkRank(s.width, s.log.job.count, s.pcs[a.thread])
  {
    var pc, count := s.pcs[a.thread], s.log.job.count;
    if pc.Invoke? || pc.Catch? {
      LeftFalls(s.width, count, pc.index);
    }
  }

  lemma CallerStepLowersRank(s: Pool, a: Act)
    requires Near(s, a, 0) && a.thread == 0 && InRun(s.pcs[0]) && !s.pcs[0].Finish? && !Working(s.pcs[0])
    requires s.pcs[0].WaitLive? ==> s.mem.live <= s.pcs[0].seen
    ensures CallerRank(Do(s, a)) < CallerRank(s)
  {
  }

  /** What a step leaves alone: the other threads, the job, and, unless the
      caller moves, the generation. */
  ghost predicate Bystanders(s: Pool, s': Pool, a: Act)
    requires Sized(s) && a.thread < s.width
  {
    && Sized(s') && s'.width == s.width && s'.log.job == s.log.job
    && (forall u :: 0 <= u < s.width && u != a.thread ==> s'.pcs[u] == s.pcs[u] && s'.seen[u] == s.seen[u])
    && (s.pcs[a.thread].Publish? || s'.mem.generation == s.mem.generation)
    && (s.pcs[a.thread].Publish? ==> Active(s'.pcs[0]))
    && (a.thread == 0 ==> s.pcs[0].Publish? || Active(s'.pcs[0]) == Active(s.pcs[0]))
    && (a.thread != 0 ==> s'.mem.live <= s.mem.live)
  }

  lemma WaitingSparesBystanders(s: Pool, a: Act)
    requires Near(s, a, a.thread) && InRun(s.pcs[0]) && WaitingPc(s.pcs[a.thread])
    ensures Bystanders(s, Do(s, a), a)
  {
  }

  lemma WorkingSparesBystanders(s: Pool, a: Act)
    requires Near(s, a, a.thread) && InRun(s.pcs[0]) && Working(s.pcs[a.thread]) && s.mem.live > 0
    ensures Bystanders(s, Do(s, a), a)
  {
  }

  lemma StepSparesBystanders(s: Pool, a: Act)
    requires Near(s, a, a.thread) && InRun(s.pcs[0]) && !s.pcs[a.thread].Finish?
    requires Working(s.pcs[a.thread]) ==> s.mem.live > 0
    ensures Bystanders(s, Do(s, a), a)
  {
    if WaitingPc(s.pcs[a.thread]) {
      WaitingSparesBystanders(s, a);
    } else if Working(s.pcs[a.thread]) {
      WorkingSparesBystanders(s, a);
    }
  }

  lemma BystanderRankFalls(s: Pool, s': Pool, a: Act, v: nat)
    requires Near(s, a, v) && Bystanders(s, s', a) && v != a.thread && InRun(s.pcs[0])
    ensures Rank(s', v) <= Rank(s, v)
  {
  }

  lemma OwnRankFalls(s: Pool, a: Act)
    requires Near(s, a, a.thread) && Ends(s) && InRange(s, a.thread) && InRun(s.pcs[0]) && !s.pcs[a.thread].Finish?
    requires Active(s.pcs[0]) ==> LiveOk(s)
    requires Working(s.pcs[a.thread]) ==> 0 < s.mem.live
    requires Bystanders(s, Do(s, a), a)
    ensures Rank(Do(s, a), a.thread) < Rank(s, a.thread)
  {
    var v := a.thread;
    if WaitingPc(s.pcs[v]) {
      WaitStepLowersRank(s, a);
    } else if Working(s.pcs[v]) {
      WorkStepLowersRank(s, a);
    } else {
      CallerStepLowersRank(s, a);
    }
  }

  lemma StepLowersRank(s: Pool, a: Act, v: nat)
    requires Inv(s) && Ends(s) && Enabled(s, a) && v < s.width && InRun(s.pcs[0]) && !s.pcs[a.thread].Finish?
    ensures Bystanders(s, Do(s, a), a)
    ensures if v == a.thread then Rank(Do(s, a), v) < Rank(s, v) else Rank(Do(s, a), v) <= Rank(s, v)
  {
    assert ThreadOk(s, 0) && ThreadOk(s, v) && ThreadOk(s, a.thread) && InRange(s, a.thread);
    if Working(s.pcs[a.thread]) {
      SomeoneStays(s, a.thread);
    }
    StepSparesBystanders(s, a);
    if v == a.thread {
      OwnRankFalls(s, a);
    } else {
      BystanderRankFalls(s, Do(s, a), a, v);
    }
  }

  lemma {:induction false} RankSumFalls(s: Pool, a: Act, n: nat)
    requires Inv(s) && Ends(s) && Enabled(s, a) && InRun(s.pcs[0]) && !s.pcs[a.thread].Finish? && n <= s.width
    ensures Bystanders(s, Do(s, a), a)
    ensures RankSum(Do(s, a), n) <= RankSum(s, n)
    ensures a.thread < n ==> RankSum(Do(s, a), n) < RankSum(s, n)
  {
    StepLowersRank(s, a, 0);
    if n > 0 {
      RankSumFalls(s, a, n - 1);
      StepLowersRank(s, a, n - 1);
    }
  }

  /** However the threads are scheduled, a Run is over within RankSum steps. */
  lemma {:induction false} RunTerminates(width: u32, states: seq<Pool>, acts: seq<Act>, i: nat, j: nat)
    requires width > 0 && Schedule(width, states, acts) && i <= j < |states|
    requires states[i].width > 0 && Ends(states[i])
    requires forall k :: i <= k < j ==> InRun(states[k].pcs[0]) && !states[k].pcs[acts[k].thread].Finish?
    ensures states[j].log.job == states[i].log.job
    ensures RankSum(states[j], width) + (j - i) <= RankSum(states[i], width)
    decreases j
  {
    hide Inv;
    hide Do;
    hide RankSum;
    hide TwoPart;
    if i < j {
      RunTerminates(width, states, acts, i, j - 1);
      EveryScheduleKeepsInv(width, states, acts, j - 1);
      RankSumFalls(states[j - 1], acts[j - 1], width);
      assert states[j - 1 + 1] == Do(states[j - 1], acts[j - 1]);
    }
  }

  // ----------------------------------------------------------- runs that do return

  ghost function Last(states: seq<Pool>): Pool
    requires states != []
  {
    states[|states| - 1]
  }

  lemma ScheduleExtends(width: u32, states: seq<Pool>, acts: seq<Act>, a: Act)
    requires width > 0 && Schedule(width, states, acts) && Enabled(Last(states), a)
    requires Sized(Do(Last(states), a)) && Do(Last(states), a).width == width
    ensures Schedule(width, states + [Do(Last(states), a)], acts + [a])
  {
    var more := states + [Do(Last(states), a)];
    forall i | 0 <= i < |acts + [a]|
      ensures Enabled(more[i], (acts + [a])[i]) && more[i + 1] == Do(more[i], (acts + [a])[i])
    {
      assert more[i] == states[i];
      if i < |acts| {
        assert states[i + 1] == Do(states[i], acts[i]);
      }
    }
  }

  /** Some step takes the Run further: it stays within the Run and lowers the rank. */
  lemma SomeStepAdvances(s: Pool) returns (a: Act)
    requires Inv(s) && Ends(s) && InRun(s.pcs[0]) && !s.pcs[0].Finish?
    ensures Enabled(s, a) && InRun(Do(s, a).pcs[0])
    ensures Sized(Do(s, a)) && Do(s, a).width == s.width && Do(s, a).log.job == s.log.job
    ensures RankSum(Do(s, a), s.width) < RankSum(s, s.width)
  {
    RunNeverBlocks(s);
    var v :| 0 <= v < s.width && Enabled(s, Act(v, false, Close)) && (s.pcs[v].WaitLive? ==> s.mem.live == 0);
    a := Act(v, false, Close);
    assert ThreadOk(s, 0) && ThreadOk(s, v);
    RankSumFalls(s, a, s.width);
    StaysInRun(s, a);
  }

  lemma StaysInRun(s: Pool, a: Act)
    requires Near(s, a, a.thread) && InRun(s.pcs[0]) && !s.pcs[0].Finish?
    ensures InRun(Do(s, a).pcs[0])
  {
  }

  /** From every reachable state inside a Run that ends, some schedule brings it to its
      return. */
  lemma {:induction false} CanFinish(width: u32, states: seq<Pool>, acts: seq<Act>)
    returns (states': seq<Pool>, acts': seq<Act>)
    requires width > 0 && Schedule(width, states, acts)
    requires Ends(Last(states)) && InRun(Last(states).pcs[0])
    ensures Schedule(width, states', acts') && states <= states'
    ensures Last(states').pcs[0].Finish? && Last(states').log.job == Last(states).log.job
    decreases RankSum(Last(states), width)
  {
    if Last(states).pcs[0].Finish? {
      return states, acts;
    }
    EveryScheduleKeepsInv(width, states, acts, |states| - 1);
    var a := SomeStepAdvances(Last(states));
    ScheduleExtends(width, states, acts, a);
    assert Last(states + [Do(Last(states), a)]) == Do(Last(states), a);
    states', acts' := CanFinish(width, states + [Do(Last(states), a)], acts + [a]);
  }

  /** So every job that ends is brought to its return from every reachable idle pool. */
  lemma JobCanFinish(width: u32, states: seq<Pool>, acts: seq<Act>, job: Job)
    returns (states': seq<Pool>, acts': seq<Act>)
    requires width > 0 && Schedule(width, states, acts) && Last(states).pcs[0].Idle?
    requires job.count + TwoPart(width) <= TWO_32
    ensures Schedule(width, states', acts') && states <= states'
    ensures Last(states').pcs[0].Finish? && Last(states').log.job == job
  {
    var a := Act(0, false, Start(job));
    EveryScheduleKeepsInv(width, states, acts, |states| - 1);
    ScheduleExtends(width, states, acts, a);
    assert Last(states + [Do(Last(states), a)]) == Do(Last(states), a);
    states', acts' := CanFinish(width, states + [Do(Last(states), a)], acts + [a]);
  }

  lemma InitialSchedule(width: u32)
    requires width > 0
    ensures Schedule(width, [Initial(width)], []) && Last([Initial(width)]).pcs[0].Idle?
  {
  }

  /** Within the index limit a Run can return, and beyond it too while it ends: then what
      it returns from is not exactly once. */
  lemma WrappedRunCanReturn(width: u32, job: Job) returns (states: seq<Pool>, acts: seq<Act>)
    requires width > 0 && TWO_32 - width < job.count <= TWO_32 - TwoPart(width)
    ensures Schedule(width, states, acts) && Last(states).pcs[0].Finish? && Last(states).log.job == job
    ensures !ExactlyOnce(Last(states)) && InvokedTwice(Last(states), job.count + width - 1 - TWO_32)
  {
    InitialSchedule(width);
    states, acts := JobCanFinish(width, [Initial(width)], [], job);
    ExactlyOnceIff(width, states, acts, |states| - 1);
    WrappedRunInvokesTwice(width, states, acts, |states| - 1);
  }

  /** Three threads and one partition short of 2^32: partition 1 is invoked twice. */
  lemma ThreeThreadsRepeat(task: nat) returns (states: seq<Pool>, acts: seq<Act>)
    ensures Schedule(3, states, acts) && Last(states).pcs[0].Finish? && Last(states).log.job == Job(TWO_32 - 1, task)
    ensures !ExactlyOnce(Last(states)) && InvokedTwice(Last(states), 1)
  {
    assert TwoPart(3) == 1;
    states, acts := WrappedRunCanReturn(3, Job(TWO_32 - 1, task));
  }

  /** A bound on the steps thread v still takes while the pool shuts down. */
  function CloseRank(pc: Pc): nat {
    match pc
    case Blocked => 4
    case Load => 3
    case Compare(_) => 2
    case CheckStop(_) => 1
    case BumpStop => 2
    case Join => 1
    case _ => 0
  }

  function CloseRankSum(s: Pool, n: nat): (r: nat)
    requires n <= |s.pcs|
    ensures r <= 4 * n
  {
    if n == 0 then 0 else CloseRankSum(s, n - 1) + CloseRank(s.pcs[n - 1])
  }

  lemma CloseStepLowersRank(s: Pool, a: Act)
    requires Inv(s) && Enabled(s, a) && Closing(s.pcs[0])
    ensures Closing(Do(s, a).pcs[0]) && |Do(s, a).pcs| == s.width
    ensures CloseRank(Do(s, a).pcs[a.thread]) < CloseRank(s.pcs[a.thread])
    ensures forall v :: 0 <= v < s.width && v != a.thread ==> Do(s, a).pcs[v] == s.pcs[v]
  {
    assert ThreadOk(s, 0) && ThreadOk(s, a.thread);
  }

  lemma {:induction false} CloseRankSumFalls(s: Pool, s': Pool, v: nat, n: nat)
    requires n <= |s.pcs| == |s'.pcs| && v < |s.pcs| && CloseRank(s'.pcs[v]) < CloseRank(s.pcs[v])
    requires forall u :: 0 <= u < |s.pcs| && u != v ==> s'.pcs[u] == s.pcs[u]
    ensures CloseRankSum(s', n) <= CloseRankSum(s, n)
    ensures v < n ==> CloseRankSum(s', n) < CloseRankSum(s, n)
  {
    if n > 0 {
      CloseRankSumFalls(s, s', v, n - 1);
    }
  }

  /** However the threads are scheduled, after the stop flag is set the destructor and
      all threads are through within four steps for each thread. */
  lemma {:induction false} CloseTerminates(width: u32, states: seq<Pool>, acts: seq<Act>, i: nat, j: nat)
    requires width > 0 && Schedule(width, states, acts) && i <= j < |states| && Closing(states[i].pcs[0])
    ensures Closing(states[j].pcs[0])
    ensures CloseRankSum(states[j], width) + (j - i) <= CloseRankSum(states[i], width)
    ensures j - i <= 4 * width
    decreases j
  {
    if i < j {
      CloseTerminates(width, states, acts, i, j - 1);
      EveryScheduleKeepsInv(width, states, acts, j - 1);
      CloseStepLowersRank(states[j - 1], acts[j - 1]);
      assert states[j - 1 + 1] == Do(states[j - 1], acts[j - 1]);
      CloseRankSumFalls(states[j - 1], states[j], acts[j - 1].thread, width);
    }
  }
}
