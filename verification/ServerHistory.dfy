/** What can be seen of a run from outside: the outcomes of system calls, of the clock and of
  * malloc, the texts parsed, and the slots the reactor looks at.  The record is made of where
  * the threads are and of those outcomes, and not of what the steps make of them.
  */
module ServerHistory {
  import opened Options
  import opened Framing
  import opened HttpRequest
  import opened Pool
  import opened Server
  import opened ServerPool
  import opened ServerTasks
  import opened ServerSlots
  import opened ServerConnections
  import opened ServerReadiness
  import opened ServerBuffers
  import opened ServerFraming
  import opened ServerSafety

  /** What last happened to a connection: an outcome of recv, a text parsed, the clock read to
    * keep it, or an outcome of malloc for its task. */
  datatype Event = Received(result: RecvResult) | Asked(text: string) | Kept(now: int) | TaskMalloc(ok: bool)

  /** A slot when it was looked at, and the clock reading on record for its connection then. */
  datatype Look = Look(slot: Slot, since: Option<int>)

  datatype History = History(
    last: map<int, Event>,  // by connection
    time: map<int, int>,    // by connection: the clock at its claim, or when it was last kept
    looks: map<nat, Look>,  // the slots looked at in the present pass over them
    pass: int,              // the clock at the start of the last pass for time-outs
    ready: set<int>,        // the descriptors select last reported ready
    added: nat,             // how many tasks had been added then
    failed: set<int>,       // connections whose task could not be allocated since then
    pending: bool,          // select reported new connections, and accept has not yet run dry
    error: bool             // select has failed
  )

  function NoHistory(): History {
    History(map[], map[], map[], 0, {}, 0, {}, false, false)
  }

  function Last(h: History, cid: int): Option<Event> {
    if cid in h.last then Some(h.last[cid]) else None
  }

  function Since(h: History, cid: int): Option<int> {
    if cid in h.time then Some(h.time[cid]) else None
  }

  function Happens(h: History, cid: int, e: Event): History {
    h.(last := h.last[cid := e])
  }

  function Looks(s: State, h: History, i: SlotIndex): History {
    h.(looks := (if i == 0 then map[] else h.looks)[i := Look(s.slots[i], Since(h, s.slots[i].cid))])
  }

  function SeeWorker(s: State, h: History, w: nat, c: Choice): History
    requires w < |s.workers|
  {
    match s.workers[w]
    case AtRecv(task) => if c.Recv? then Happens(h, task.cid, Received(c.result)) else h
    case Serve(task) => Happens(h, task.cid, Asked(ParserInput(s.slots[task.slot].buffer)))
    case Touch(task) => if c.Clock? then Happens(h, task.cid, Kept(c.now)).(time := h.time[task.cid := c.now]) else h
    case _ => h
  }

  function SeeMalloc(s: State, h: History, i: SlotIndex, c: Choice): History {
    if c.Malloc? then
      Happens(h, s.slots[i].cid, TaskMalloc(c.ok)).(failed := h.failed + if c.ok then {} else {s.slots[i].cid})
    else h
  }

  function SeeReactor(s: State, h: History, c: Choice): History {
    match s.reactor
    case Watch(i) => if i < MAX_CONNS then Looks(s, h, i) else h
    case Select =>
      if c.SelectFailed? then h.(error := true)
      else if c.Selected? then h.(ready := c.ready, added := |s.added|, failed := {}, pending := c.newConnection)
      else h
    case Accept => if c.NoneToAccept? then h.(pending := false) else h
    case Claim(i, _, cid) =>
      if i >= MAX_CONNS then h
      else if c.Clock? && !s.slots[i].active then Looks(s, h, i).(time := h.time[cid := c.now])
      else Looks(s, h, i)
    case NewTask(i) => SeeMalloc(s, h, i, c)
    case Scan(i) =>
      if i < MAX_CONNS then Looks(s, h, i)
      else if c.Clock? then h.(pass := c.now)
      else h
    case Dispatch(i) => SeeMalloc(s, h, i, c)
    case Timeouts(i, _) => if i < MAX_CONNS then Looks(s, h, i) else h
    case _ => h
  }

  function See(s: State, h: History, st: Step): History
    requires ValidStep(s, st)
  {
    match st
    case WorkerStep(w, c) => SeeWorker(s, h, w, c)
    case ReactorStep(c) => SeeReactor(s, h, c)
  }

  /** `t` is reached from `s` by the steps `run`, and the record grows from `h` to `k`. */
  ghost predicate Records(s: State, h: History, run: seq<Step>, t: State, k: History)
    decreases |run|
  {
    if run == [] then s == t && h == k
    else
      && ValidStep(s, run[0]) && Next(s, run[0]).Some?
      && Records(Next(s, run[0]).value, See(s, h, run[0]), run[1..], t, k)
  }

  /** `h` is the record of a run from the start to `s`. */
  ghost predicate ReachableWith(s: State, h: History) {
    exists n: nat, option, run :: n > 0 && Records(Init(n, option), NoHistory(), run, s, h)
  }

  lemma {:induction false} RecordsReach(s: State, h: History, run: seq<Step>, t: State, k: History)
    requires Records(s, h, run, t, k)
    ensures Reaches(s, run, t)
    decreases |run|
  {
    hide Next, See;
    if run != [] {
      RecordsReach(Next(s, run[0]).value, See(s, h, run[0]), run[1..], t, k);
    }
  }

  /** Every run has a record. */
  lemma {:induction false} RunsAreRecorded(s: State, h: History, run: seq<Step>, t: State) returns (k: History)
    requires Reaches(s, run, t)
    ensures Records(s, h, run, t, k)
    decreases |run|
  {
    hide Next, See;
    if run == [] {
      k := h;
    } else {
      k := RunsAreRecorded(Next(s, run[0]).value, See(s, h, run[0]), run[1..], t);
    }
  }

  /** The states with a record are the reachable ones. */
  lemma ReachableIffRecorded(s: State)
    ensures Reachable(s) <==> exists h :: ReachableWith(s, h)
  {
    hide Init, Reaches, Records;
    if Reachable(s) {
      var n: nat, option, run :| n > 0 && Reaches(Init(n, option), run, s);
      var h := RunsAreRecorded(Init(n, option), NoHistory(), run, s);
      assert ReachableWith(s, h);
    }
    forall h | ReachableWith(s, h)
      ensures Reachable(s)
    {
      var n: nat, option, run :| n > 0 && Records(Init(n, option), NoHistory(), run, s, h);
      RecordsReach(Init(n, option), NoHistory(), run, s, h);
    }
  }

  // ------------------------------------------------------------------ the steps, by place

  /** Where a worker's step goes, by the outcome, and what it writes into last_activity. */
  lemma WorkingMoves(s: State, w: nat, c: Choice)
    requires Wf(s) && w < |s.workers| && Working(s.workers[w]) && WorkerNext(s, w, c).Some?
    ensures var t, p, i := WorkerNext(s, w, c).value, s.workers[w], TaskOf(s.workers[w]).slot;
            && |t.workers| == |s.workers|
            && s.net.closed <= t.net.closed
            && t.slots[i].lastActivity == (if p.Touch? && c.Clock? then c.now else s.slots[i].lastActivity)
            && var q := t.workers[w];
            match p
            case AtRecv(task) =>
              && c.Recv?
              && (c.result.Bytes? ==> q.GotBytes? && q.task == task)
              && (c.result.Again? ==> q == ClearBusy(task))
              && (c.result.Gone? ==> q == CloseFd(task))
            case GotBytes(task, _) => q == Decide(task)
            case Decide(task) => q == Serve(task) || q == Touch(task)
            case Serve(task) => q == Reset(task, KeepsAlive(ParserInput(s.slots[i].buffer)))
            case Reset(task, keepAlive) => q == KeepAliveTest(task, keepAlive)
            case KeepAliveTest(task, keepAlive) => q == if keepAlive && s.slots[i].active then Touch(task) else CloseFd(task)
            case Touch(task) => c.Clock? && q == ClearBusy(task)
            case ClearBusy(task) => q == AtFree(task)
            case CloseFd(task) => q == ClearActive(task)
            case ClearActive(task) => q == AtFree(task)
            case _ => q == AtRelock
  {
    hide Advance, Fill, Fits, RequestComplete, ParserInput, KeepsAlive;
  }

  // ------------------------------------------------------------- what happened last

  predicate LeftAlone(e: Option<Event>) {
    e.Some? && (e.value.Kept? || e.value == Received(Again))
  }

  predicate AskedToKeep(e: Option<Event>, keep: bool) {
    e.Some? && e.value.Asked? && KeepsAlive(e.value.text) == keep
  }

  predicate HeardBytes(e: Option<Event>) {
    e.Some? && e.value.Received? && e.value.result.Bytes?
  }

  /** What last happened to the connection a worker is at. */
  predicate WorkerEvent(w: Worker, e: Option<Event>) {
    match w
    case LeaveWork(_) => e == Some(TaskMalloc(true))
    case AtRecv(_) => e == Some(TaskMalloc(true))
    case GotBytes(_, _) => HeardBytes(e)
    case Decide(_) => HeardBytes(e)
    case Serve(_) => HeardBytes(e)
    case Reset(_, keepAlive) => AskedToKeep(e, keepAlive)
    case KeepAliveTest(_, keepAlive) => AskedToKeep(e, keepAlive)
    case Touch(_) => HeardBytes(e) || AskedToKeep(e, true)
    case ClearBusy(_) => LeftAlone(e)
    case CloseFd(_) => e == Some(Received(Gone)) || AskedToKeep(e, false)
    case ClearActive(_) => e == Some(Received(Gone)) || AskedToKeep(e, false)
    case _ => true
  }

  /** What last happened to the connection of a slot, by the slot's holder. */
  predicate EventOk(s: State, holder: Option<Holder>, e: Option<Event>) {
    match holder
    case None => LeftAlone(e)
    case Some(HReactor) =>
      && (s.reactor.DropFd? || s.reactor.DropSlot? ==> e == Some(TaskMalloc(false)))
      && (s.reactor.AddLock? || s.reactor.AddPush? ==> e == Some(TaskMalloc(true)))
    case Some(HQueued(_)) => e == Some(TaskMalloc(true))
    case Some(HWorker(w)) => w < |s.workers| && WorkerEvent(s.workers[w], e)
  }

  /** Every active slot's connection has a clock reading, which is its last_activity; and what
    * last happened to it fits its holder. */
  predicate EventInv(s: State, own: Owners, h: History) {
    forall i: SlotIndex :: s.slots[i].active ==>
      && Since(h, s.slots[i].cid) == Some(s.slots[i].lastActivity)
      && EventOk(s, own[i], Last(h, s.slots[i].cid))
  }

  /** A worker's step changes the record of its own connection only, and as its place says. */
  lemma SeesItsOwn(s: State, h: History, w: nat, c: Choice)
    requires w < |s.workers| && HasTask(s.workers[w])
    ensures var k, task := SeeWorker(s, h, w, c), TaskOf(s.workers[w]);
            && k == h.(last := k.last, time := k.time)
            && (forall cid :: cid != task.cid ==> Last(k, cid) == Last(h, cid) && Since(k, cid) == Since(h, cid))
            && Since(k, task.cid) == (if s.workers[w].Touch? && c.Clock? then Some(c.now) else Since(h, task.cid))
            && Last(k, task.cid) ==
                 match s.workers[w]
                 case AtRecv(_) => if c.Recv? then Some(Received(c.result)) else Last(h, task.cid)
                 case Serve(_) => Some(Asked(ParserInput(s.slots[task.slot].buffer)))
                 case Touch(_) => if c.Clock? then Some(Kept(c.now)) else Last(h, task.cid)
                 case _ => Last(h, task.cid)
  {
    hide ParserInput;
  }

  lemma WorkingSees(s: State, h: History, w: nat, c: Choice)
    requires Wf(s) && w < |s.workers| && Working(s.workers[w]) && WorkerNext(s, w, c).Some?
    requires WorkerEvent(s.workers[w], Last(h, TaskOf(s.workers[w]).cid))
    requires s.workers[w].KeepAliveTest? ==> s.slots[TaskOf(s.workers[w]).slot].active
    ensures var t, k, task := WorkerNext(s, w, c).value, SeeWorker(s, h, w, c), TaskOf(s.workers[w]);
            && k == h.(last := k.last, time := k.time)
            && (forall cid :: cid != task.cid ==> Last(k, cid) == Last(h, cid) && Since(k, cid) == Since(h, cid))
            && |t.workers| == |s.workers| && WorkerEvent(t.workers[w], Last(k, task.cid))
            && Since(k, task.cid) == (if s.workers[w].Touch? then Some(t.slots[task.slot].lastActivity) else Since(h, task.cid))
            && (s.workers[w].ClearBusy? ==> LeftAlone(Last(k, task.cid)))
  {
    hide WorkerNext, KeepsAlive, ParserInput, SeeWorker, Last, Since;
    WorkingMoves(s, w, c);
    SeesItsOwn(s, h, w, c);
  }

  lemma WorkingKeepsEvents(s: State, own: Owners, h: History, w: nat, c: Choice)
    requires Wf(s) && SlotInv(s, own) && ConnInv(s, own) && EventInv(s, own, h)
    requires w < |s.workers| && Working(s.workers[w]) && !s.workers[w].AtFree? && WorkerNext(s, w, c).Some?
    ensures EventInv(WorkerNext(s, w, c).value, WorkerOwners(s, own, w), SeeWorker(s, h, w, c))
  {
    hide WorkerNext, SeeWorker, OpenInv, HomeInv, NetInv, LeftAlone, KeepsAlive, Since, Last;
    var t, k, i := WorkerNext(s, w, c).value, SeeWorker(s, h, w, c), TaskOf(s.workers[w]).slot;
    var own' := WorkerOwners(s, own, w);
    WorkerOwns(s, own, w);
    WorkingFrame(s, w, c);
    WorkingEffect(s, w, c);
    WorkingMoves(s, w, c);
    WorkingSees(s, h, w, c);
    hide WorkerEvent;
    forall j: SlotIndex | t.slots[j].active
      ensures Since(k, t.slots[j].cid) == Some(t.slots[j].lastActivity)
      ensures EventOk(t, own'[j], Last(k, t.slots[j].cid))
    {
      if j != i {
        assert s.slots[j].cid != s.slots[i].cid;
        assert own'[j] == own[j];
      }
    }
  }

  lemma FreeingKeepsEvents(s: State, own: Owners, h: History, w: nat, c: Choice)
    requires Wf(s) && SlotInv(s, own) && EventInv(s, own, h)
    requires w < |s.workers| && s.workers[w].AtFree? && WorkerNext(s, w, c).Some?
    ensures EventInv(WorkerNext(s, w, c).value, WorkerOwners(s, own, w), SeeWorker(s, h, w, c))
  {
    hide WorkerNext, LeftAlone, KeepsAlive, Since, Last;
    WorkingFrame(s, w, c);
    FreeingTouchesNothing(s, w, c);
  }

  /** A step outside its work takes a worker from one place without a task to another, from the
    * queue to a task, or from the lock to its work. */
  lemma SectionMoves(s: State, w: nat, c: Choice)
    requires Wf(s) && QueueInv(s) && w < |s.workers| && !Working(s.workers[w]) && WorkerNext(s, w, c).Some?
    ensures var t, p := WorkerNext(s, w, c).value, s.workers[w];
            && |t.workers| == |s.workers|
            && var q := t.workers[w];
            if HasTask(q) then
              || (p.LeaveWork? && q == AtRecv(p.task))
              || (p.InEntry? && s.pool.cells[w] != Terminated && s.pool.queue != [] && q == LeaveWork(s.pool.queue[0]))
            else p.InEntry? ==> s.pool.cells[w] == Terminated || s.pool.queue == [] || s.pool.availableWork <= 0
  {
    hide DoRecv, Close, Advance, Fill, Fits, RequestComplete, ParserInput, KeepsAlive;
  }

  /** The popped task's slot passes to the worker; every other slot keeps its holder. */
  lemma SectionHolder(s: State, t: State, own: Owners, w: nat, j: SlotIndex, e: Option<Event>)
    requires Wf(s) && QueueInv(s) && SlotInv(s, own) && w < |s.workers| && !Working(s.workers[w])
    requires s.pool.availableWork == |s.pool.queue|
    requires t.reactor == s.reactor && |t.workers| == |s.workers| && t.workers == s.workers[w := t.workers[w]]
    requires if HasTask(t.workers[w]) then
               || (s.workers[w].LeaveWork? && t.workers[w] == AtRecv(s.workers[w].task))
               || (s.workers[w].InEntry? && s.pool.cells[w] != Terminated && s.pool.queue != []
                   && t.workers[w] == LeaveWork(s.pool.queue[0]))
             else s.workers[w].InEntry? ==> s.pool.cells[w] == Terminated || s.pool.queue == []
    requires EventOk(s, own[j], e)
    ensures EventOk(t, WorkerOwners(s, own, w)[j], e)
  {
    hide LeftAlone, AskedToKeep, HeardBytes, TimeoutInv;
    assert own[j].Some? ==> Holds(s, own[j].value, j);
    if s.pool.queue != [] {
      assert s.pool.queue[0] == s.added[Popped(s)];
      assert Holds(s, HQueued(Popped(s)), s.pool.queue[0].slot);
    }
  }

  lemma SectionKeepsEvents(s: State, own: Owners, h: History, w: nat, c: Choice)
    requires PoolInv(s) && TaskInv(s) && SlotInv(s, own) && EventInv(s, own, h)
    requires w < |s.workers| && !Working(s.workers[w]) && WorkerNext(s, w, c).Some?
    ensures EventInv(WorkerNext(s, w, c).value, WorkerOwners(s, own, w), SeeWorker(s, h, w, c))
  {
    assert Wf(s) && QueueInv(s) && s.pool.availableWork == |s.pool.queue|;
    assert SeeWorker(s, h, w, c) == h;
    SectionFrame(s, w, c);
    SectionMoves(s, w, c);
    hide WorkerNext, PoolInv, TaskInv, SlotInv, Since, Last, SeeWorker, EventOk, WorkerOwners;
    var t := WorkerNext(s, w, c).value;
    forall j: SlotIndex | t.slots[j].active
      ensures EventOk(t, WorkerOwners(s, own, w)[j], Last(h, t.slots[j].cid))
    {
      SectionHolder(s, t, own, w, j, Last(h, t.slots[j].cid));
    }
  }

  lemma WorkerKeepsEvents(s: State, own: Owners, h: History, w: nat, c: Choice)
    requires PoolInv(s) && TaskInv(s) && SlotInv(s, own) && ConnInv(s, own) && EventInv(s, own, h)
    requires w < |s.workers| && WorkerNext(s, w, c).Some?
    ensures EventInv(WorkerNext(s, w, c).value, WorkerOwners(s, own, w), SeeWorker(s, h, w, c))
  {
    assert Wf(s);
    hide WorkerNext, PoolInv, TaskInv, SlotInv, ConnInv, EventInv, WorkerOwners, SeeWorker;
    if !Working(s.workers[w]) {
      SectionKeepsEvents(s, own, h, w, c);
    } else if s.workers[w].AtFree? {
      FreeingKeepsEvents(s, own, h, w, c);
    } else {
      WorkingKeepsEvents(s, own, h, w, c);
    }
  }

  // -------------------------------------------------------- reactor steps and the record

  /** What the reactor's step shows of connections. */
  lemma ReactorSees(s: State, h: History, c: Choice)
    requires Wf(s)
    ensures var k := SeeReactor(s, h, c);
            match s.reactor
            case Claim(i, _, cid) =>
              && k.last == h.last
              && (forall x :: x != cid ==> Since(k, x) == Since(h, x))
              && Since(k, cid) == if i < MAX_CONNS && c.Clock? && !s.slots[i].active then Some(c.now) else Since(h, cid)
            case NewTask(i) =>
              && k.time == h.time && (forall x :: x != s.slots[i].cid ==> Last(k, x) == Last(h, x))
              && (c.Malloc? ==> Last(k, s.slots[i].cid) == Some(TaskMalloc(c.ok)))
            case Dispatch(i) =>
              && k.time == h.time && (forall x :: x != s.slots[i].cid ==> Last(k, x) == Last(h, x))
              && (c.Malloc? ==> Last(k, s.slots[i].cid) == Some(TaskMalloc(c.ok)))
            case _ => k.last == h.last && k.time == h.time
  {
    hide SeeReactor, Last, Since;
    if s.reactor.Claim? {
      SeesClaim(s, h, c);
    } else if s.reactor.NewTask? || s.reactor.Dispatch? {
      SeesMalloc(s, h, s.reactor.slot, c);
      MallocIsSeen(s, h, c);
    } else {
      SeesNoConnection(s, h, c);
    }
  }

  lemma MallocIsSeen(s: State, h: History, c: Choice)
    requires s.reactor.NewTask? || s.reactor.Dispatch?
    ensures SeeReactor(s, h, c) == SeeMalloc(s, h, s.reactor.slot, c)
  {
    hide SeeMalloc;
  }

  lemma SeesNoConnection(s: State, h: History, c: Choice)
    requires !s.reactor.Claim? && !s.reactor.NewTask? && !s.reactor.Dispatch?
    ensures var k := SeeReactor(s, h, c); k.last == h.last && k.time == h.time
  {
  }

  lemma SeesClaim(s: State, h: History, c: Choice)
    requires s.reactor.Claim?
    ensures var k, i, cid := SeeReactor(s, h, c), s.reactor.i, s.reactor.cid;
            && k.last == h.last
            && (forall x :: x != cid ==> Since(k, x) == Since(h, x))
            && Since(k, cid) == if i < MAX_CONNS && c.Clock? && !s.slots[i].active then Some(c.now) else Since(h, cid)
  {
  }

  lemma SeesMalloc(s: State, h: History, i: SlotIndex, c: Choice)
    ensures var k := SeeMalloc(s, h, i, c);
            && k.time == h.time && (forall x :: x != s.slots[i].cid ==> Last(k, x) == Last(h, x))
            && (c.Malloc? ==> Last(k, s.slots[i].cid) == Some(TaskMalloc(c.ok)))
  {
  }

  /** Where malloc for a task leads, and what a claim stores. */
  lemma ReactorMoves(s: State, c: Choice)
    requires Wf(s) && ReactorNext(s, c).Some?
    ensures var t := ReactorNext(s, c).value;
            match s.reactor
            case Claim(i, fd, cid) =>
              if i >= MAX_CONNS then t.reactor == Reject(fd, cid) && t.slots == s.slots
              else if s.slots[i].active then t.reactor == Claim(i + 1, fd, cid) && t.slots == s.slots
              else c.Clock? && t.reactor == NewTask(i) && t.slots[i].lastActivity == c.now && t.slots[i].cid == cid
            case NewTask(i) =>
              c.Malloc? && t.reactor == if c.ok then AddLock(TaskFor(s, i), ToAccept) else DropFd(i, ToAccept)
            case Dispatch(i) =>
              c.Malloc? && t.reactor == if c.ok then AddLock(TaskFor(s, i), ToScan(i + 1)) else DropFd(i, ToScan(i + 1))
            case DropFd(i, back) => t.reactor == DropSlot(i, back)
            case AddLock(task, back) => t.reactor == AddPush(task, back)
            case _ => !t.reactor.DropFd? && !t.reactor.DropSlot? && !t.reactor.AddLock? && !t.reactor.AddPush?
  {
    hide Close, AddWork, Terminate;
  }

  lemma ClaimKeepsEvents(s: State, own: Owners, h: History, c: Choice)
    requires Wf(s) && QueueInv(s) && SlotInv(s, own) && ConnInv(s, own) && EventInv(s, own, h) && ReactorNext(s, c).Some?
    requires s.reactor.Claim?
    ensures EventInv(ReactorNext(s, c).value, ReactorOwners(s, own), SeeReactor(s, h, c))
  {
    var t, own', k := ReactorNext(s, c).value, ReactorOwners(s, own), SeeReactor(s, h, c);
    ReactorTaskFrame(s, c);
    ReactorSlotEffect(s, c);
    ReactorMoves(s, c);
    ReactorSees(s, h, c);
    hide ReactorNext, SeeReactor, MatchInv, HomeInv, NetInv, WorkerEvent, LeftAlone, Since, Last, TimeoutInv;
    forall j: SlotIndex | t.slots[j].active
      ensures Since(k, t.slots[j].cid) == Some(t.slots[j].lastActivity)
      ensures EventOk(t, own'[j], Last(k, t.slots[j].cid))
    {
      assert own[j].Some? ==> Holds(s, own[j].value, j);
    }
  }

  lemma MallocKeepsEvents(s: State, own: Owners, h: History, c: Choice)
    requires Wf(s) && QueueInv(s) && SlotInv(s, own) && ConnInv(s, own) && EventInv(s, own, h) && ReactorNext(s, c).Some?
    requires s.reactor.NewTask? || s.reactor.Dispatch?
    ensures EventInv(ReactorNext(s, c).value, ReactorOwners(s, own), SeeReactor(s, h, c))
  {
    var t, own', k := ReactorNext(s, c).value, ReactorOwners(s, own), SeeReactor(s, h, c);
    ReactorTaskFrame(s, c);
    ReactorSlotEffect(s, c);
    ReactorMoves(s, c);
    ReactorSees(s, h, c);
    hide ReactorNext, SeeReactor, MatchInv, HomeInv, NetInv, WorkerEvent, LeftAlone, Since, Last, TimeoutInv;
    assert ReactorHand(s.reactor).Some? ==> Holds(s, HReactor, ReactorHand(s.reactor).value);
    forall j: SlotIndex | t.slots[j].active
      ensures Since(k, t.slots[j].cid) == Some(t.slots[j].lastActivity)
      ensures EventOk(t, own'[j], Last(k, t.slots[j].cid))
    {
      assert own[j].Some? ==> Holds(s, own[j].value, j);
    }
  }

  lemma HandKeepsEvents(s: State, own: Owners, h: History, c: Choice)
    requires Wf(s) && QueueInv(s) && SlotInv(s, own) && ConnInv(s, own) && EventInv(s, own, h) && ReactorNext(s, c).Some?
    requires !s.reactor.Claim? && !s.reactor.NewTask? && !s.reactor.Dispatch? && ReactorHand(s.reactor).Some?
    ensures EventInv(ReactorNext(s, c).value, ReactorOwners(s, own), SeeReactor(s, h, c))
  {
    var t, own', k := ReactorNext(s, c).value, ReactorOwners(s, own), SeeReactor(s, h, c);
    ReactorTaskFrame(s, c);
    ReactorSlotEffect(s, c);
    ReactorMoves(s, c);
    ReactorSees(s, h, c);
    hide ReactorNext, SeeReactor, MatchInv, HomeInv, NetInv, WorkerEvent, LeftAlone, Since, Last, TimeoutInv;
    assert ReactorHand(s.reactor).Some? ==> Holds(s, HReactor, ReactorHand(s.reactor).value);
    forall j: SlotIndex | t.slots[j].active
      ensures Since(k, t.slots[j].cid) == Some(t.slots[j].lastActivity)
      ensures EventOk(t, own'[j], Last(k, t.slots[j].cid))
    {
      assert own[j].Some? ==> Holds(s, own[j].value, j);
    }
  }

  lemma FreeHandKeepsEvents(s: State, own: Owners, h: History, c: Choice)
    requires Wf(s) && QueueInv(s) && SlotInv(s, own) && ConnInv(s, own) && EventInv(s, own, h) && ReactorNext(s, c).Some?
    requires !s.reactor.Claim? && ReactorHand(s.reactor) == None
    ensures EventInv(ReactorNext(s, c).value, ReactorOwners(s, own), SeeReactor(s, h, c))
  {
    var t, own', k := ReactorNext(s, c).value, ReactorOwners(s, own), SeeReactor(s, h, c);
    ReactorTaskFrame(s, c);
    ReactorSlotEffect(s, c);
    ReactorMoves(s, c);
    ReactorSees(s, h, c);
    hide ReactorNext, SeeReactor, MatchInv, HomeInv, NetInv, WorkerEvent, LeftAlone, Since, Last, TimeoutInv;
    forall j: SlotIndex | t.slots[j].active
      ensures Since(k, t.slots[j].cid) == Some(t.slots[j].lastActivity)
      ensures EventOk(t, own'[j], Last(k, t.slots[j].cid))
    {
      assert own[j].Some? ==> Holds(s, own[j].value, j);
    }
  }

  lemma ReactorKeepsEvents(s: State, own: Owners, h: History, c: Choice)
    requires Wf(s) && QueueInv(s) && SlotInv(s, own) && ConnInv(s, own) && EventInv(s, own, h) && ReactorNext(s, c).Some?
    ensures EventInv(ReactorNext(s, c).value, ReactorOwners(s, own), SeeReactor(s, h, c))
  {
    hide ReactorNext, QueueInv, SlotInv, ConnInv, EventInv, ReactorOwners, SeeReactor;
    if s.reactor.Claim? {
      ClaimKeepsEvents(s, own, h, c);
    } else if s.reactor.NewTask? || s.reactor.Dispatch? {
      MallocKeepsEvents(s, own, h, c);
    } else if ReactorHand(s.reactor).Some? {
      HandKeepsEvents(s, own, h, c);
    } else {
      FreeHandKeepsEvents(s, own, h, c);
    }
  }
}
