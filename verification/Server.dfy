/** The reactor thread, the worker threads and everything they share, as one transition
  * system (thread_pool.c, network.c).  A step is one access to shared memory, one
  * semaphore or lock operation, one system call, or one critical section's body;
  * steps of different threads interleave freely.  Memory is sequentially consistent.
  */
module Server {
  import opened Options
  import opened Framing
  import opened Pool
  import opened HttpRequest

  const MAX_CONNS: nat := 256
  const IDLE_LIMIT: int := 10

  type SlotIndex = i: nat | i < MAX_CONNS witness 0

  /** A connection is the identity of one successful accept; `cid` numbers them.  A file
    * descriptor may be reused, a `cid` may not. */
  datatype Task = Task(id: nat, fd: int, cid: int, slot: SlotIndex)

  /** A `ClientConnection`.  The fields from `cid` on are auxiliary, and no step reads them to
    * decide anything: the connection the slot was last claimed for, all bytes received
    * through the slot since its last completed request, every chunk ever received through
    * it, and every text the parser was called with for it. */
  datatype Slot = Slot(fd: int, lastActivity: int, busy: bool, active: bool, buffer: Buffer,
                       cid: int, heard: string, chunks: seq<string>, requests: seq<string>)

  type Slots = s: seq<Slot> | |s| == MAX_CONNS witness InitSlots()

  function InitSlots(): (s: seq<Slot>)
    ensures |s| == MAX_CONNS
    ensures forall i :: 0 <= i < MAX_CONNS ==> s[i] == Slot(0, 0, false, false, EMPTY, -1, "", [], [])
  {
    seq(MAX_CONNS, _ => Slot(0, 0, false, false, EMPTY, -1, "", [], []))
  }

  /** Where a worker is in its loop; the comment gives what it does next. */
  datatype Worker =
    | AtWait                                  // wait on the semaphore
    | AtLock                                  // take the pool lock
    | InEntry                                 // run the first critical section
    | LeaveExit                               // unlock and leave the loop
    | LeaveWork(task: Task)                   // unlock with a task
    | LeaveNull                               // unlock without a task although work was announced
    | LeaveNoWork                             // unlock and wait again
    | AtRecv(task: Task)                      // recv
    | GotBytes(task: Task, n: nat)            // advance read_length, terminate the buffer
    | Decide(task: Task)                      // test whether the request is complete
    | Serve(task: Task)                       // parse and handle the request
    | Reset(task: Task, keepAlive: bool)      // empty the buffer
    | KeepAliveTest(task: Task, keepAlive: bool) // read is_active
    | Touch(task: Task)                       // write last_activity
    | ClearBusy(task: Task)                   // is_busy = 0
    | CloseFd(task: Task)                     // close
    | ClearActive(task: Task)                 // is_active = 0
    | AtFree(task: Task)                      // free the task
    | AtRelock                                // take the pool lock
    | InFinish                                // run the second critical section
    | LeaveLoop                               // unlock and start over
    | Exited

  /** Where add_work returns to: the accept loop, or the scan at slot `next`. */
  datatype Back = ToAccept | ToScan(next: nat)

  datatype Reactor =
    | Watch(i: nat)                           // look at slot i for the select set
    | Select                                  // select
    | Accept                                  // accept
    | Claim(i: nat, fd: int, cid: int)        // look at slot i for a free one
    | Reject(fd: int, cid: int)               // no free slot: close
    | NewTask(slot: SlotIndex)                   // malloc the task of a claimed slot
    | DropFd(slot: SlotIndex, back: Back)        // malloc failed: close
    | DropSlot(slot: SlotIndex, back: Back)      // is_active = 0
    | AddLock(task: Task, back: Back)         // add_work: take the pool lock
    | AddPush(task: Task, back: Back)         // push, count
    | AddPost(back: Back)                     // post the semaphore
    | AddUnlock(back: Back)                   // unlock
    | Scan(i: nat)                            // look at slot i for a ready one
    | Dispatch(slot: SlotIndex)                  // malloc the task of a ready slot
    | Timeouts(i: nat, now: int)              // look at slot i for an idle one
    | TimeoutFd(slot: SlotIndex, now: int)       // close it
    | TimeoutSlot(slot: SlotIndex, now: int)     // is_active = 0
    | Spin                                    // SOFT destroy: read available_work
    | MarkLock                                // take the pool lock
    | Mark(i: nat)                            // cell i = TERMINATED
    | MarkUnlock                              // unlock
    | Post(i: nat)                            // post the semaphore
    | Join(i: nat)                            // wait for worker i to exit
    | Done

  datatype DestroyOption = Soft | DrainAndDrop

  datatype Lock = Unlocked | ByWorker(w: nat) | ByReactor

  /** The kernel's side: which connection each open descriptor is, how many connections
    * were accepted, which were closed (in order), and closes of a descriptor not open. */
  datatype Net = Net(open: map<int, int>, accepted: nat, closed: seq<int>, badCloses: nat)

  /** A descriptor put into the select set, with the slot and connection it was put in for. */
  datatype Watched = Watched(slot: SlotIndex, cid: int)

  datatype State = State(
    pool: PoolState<Task>,
    sem: nat,
    lock: Lock,
    workers: seq<Worker>,
    reactor: Reactor,
    slots: Slots,
    net: Net,
    watched: map<int, Watched>,
    ready: set<int>,
    option: DestroyOption,
    added: seq<Task>,      // history: every task pushed, in order
    finished: seq<nat>     // history: ids of tasks whose execution ended, in order
  )

  predicate Wf(s: State) {
    |s.pool.cells| == |s.workers| && s.workers != []
  }

  function Init(n: nat, option: DestroyOption): State
    requires n > 0
  {
    State(Fresh(n), 0, Unlocked, seq(n, _ => AtWait), Watch(0), InitSlots(),
          Net(map[], 0, [], 0), map[], {}, option, [], [])
  }

  // ------------------------------------------------------------------ choices

  /** The outcome of recv: some bytes, no bytes yet, or end of stream or error. */
  datatype RecvResult = Bytes(chunk: string) | Again | Gone

  /** What a step leaves open: results of system calls and of the clock, and the end of a handler. */
  datatype Choice =
    | Nothing
    | Recv(result: RecvResult)
    | Handled
    | Clock(now: int)
    | Selected(ready: set<int>, newConnection: bool)
    | SelectFailed
    | Accepted(fd: int)
    | NoneToAccept
    | Malloc(ok: bool)

  datatype Step = WorkerStep(w: nat, choice: Choice) | ReactorStep(choice: Choice)

  // --------------------------------------------------------------- small updates

  function Close(net: Net, fd: int): Net {
    if fd in net.open then net.(open := net.open - {fd}, closed := net.closed + [net.open[fd]])
    else net.(badCloses := net.badCloses + 1)
  }

  function Go(s: State, w: nat, to: Worker): State
    requires w < |s.workers|
  {
    s.(workers := s.workers[w := to])
  }

  function SetSlot(s: State, i: SlotIndex, slot: Slot): State
  {
    s.(slots := s.slots[i := slot])
  }

  // ------------------------------------------------------------- the worker's steps

  function WorkerNext(s: State, w: nat, c: Choice): Option<State>
    requires Wf(s) && w < |s.workers|
  {
    match s.workers[w]
    case AtWait => if s.sem > 0 then Some(Go(s.(sem := s.sem - 1), w, AtLock)) else None
    case AtLock => if s.lock == Unlocked then Some(Go(s.(lock := ByWorker(w)), w, InEntry)) else None
    case InEntry =>
      var (p, entry) := Enter(s.pool, w);
      Some(Go(s.(pool := p), w,
              match entry
              case Exit => LeaveExit
              case Work(Some(task)) => LeaveWork(task)
              case Work(None) => LeaveNull
              case NoWork => LeaveNoWork))
    case LeaveExit => Some(Go(s.(lock := Unlocked), w, Exited))
    case LeaveWork(task) => Some(Go(s.(lock := Unlocked), w, AtRecv(task)))
    case LeaveNull => Some(Go(s.(lock := Unlocked), w, AtRelock))
    case LeaveNoWork => Some(Go(s.(lock := Unlocked), w, AtWait))
    case AtRecv(task) => if c.Recv? then DoRecv(s, w, task, c.result) else None
    case GotBytes(task, n) =>
      var slot := s.slots[task.slot];
      if |slot.buffer.bytes| == BUFFER_SIZE && 0 <= slot.buffer.length && slot.buffer.length + n < BUFFER_SIZE then
        Some(Go(SetSlot(s, task.slot, slot.(buffer := Advance(slot.buffer, n))), w, Decide(task)))
      else None
    case Decide(task) =>
      Some(Go(s, w, if RequestComplete(s.slots[task.slot].buffer) then Serve(task) else Touch(task)))
    case Serve(task) =>
      var slot := s.slots[task.slot];
      if c.Handled? then
        Some(Go(SetSlot(s, task.slot, slot.(requests := slot.requests + [ParserInput(slot.buffer)])),
                w, Reset(task, KeepsAlive(ParserInput(slot.buffer)))))
      else None
    case Reset(task, keepAlive) =>
      Some(Go(SetSlot(s, task.slot, s.slots[task.slot].(buffer := EMPTY, heard := "")), w, KeepAliveTest(task, keepAlive)))
    case KeepAliveTest(task, keepAlive) =>
      Some(Go(s, w, if keepAlive && s.slots[task.slot].active then Touch(task) else CloseFd(task)))
    case Touch(task) =>
      if c.Clock? then
        Some(Go(SetSlot(s, task.slot, s.slots[task.slot].(lastActivity := c.now)), w, ClearBusy(task)))
      else None
    case ClearBusy(task) =>
      Some(Go(SetSlot(s, task.slot, s.slots[task.slot].(busy := false)), w, AtFree(task)))
    case CloseFd(task) => Some(Go(s.(net := Close(s.net, task.fd)), w, ClearActive(task)))
    case ClearActive(task) =>
      Some(Go(SetSlot(s, task.slot, s.slots[task.slot].(active := false)), w, AtFree(task)))
    case AtFree(task) => Some(Go(s.(finished := s.finished + [task.id]), w, AtRelock))
    case AtRelock => if s.lock == Unlocked then Some(Go(s.(lock := ByWorker(w)), w, InFinish)) else None
    case InFinish =>
      var (p, exit) := Finish(s.pool, w);
      Some(Go(s.(pool := p), w, if exit then LeaveExit else LeaveLoop))
    case LeaveLoop => Some(Go(s.(lock := Unlocked), w, AtWait))
    case Exited => None
  }

  /** The size recv is called with. */
  function RecvSize(b: Buffer): int {
    BUFFER_SIZE - 1 - b.length
  }

  /** recv: at most RecvSize bytes; asked for no byte at all, it returns 0. */
  function DoRecv(s: State, w: nat, task: Task, r: RecvResult): Option<State>
    requires w < |s.workers|
  {
    var slot := s.slots[task.slot];
    match r
    case Bytes(chunk) =>
      if chunk != [] && Fits(slot.buffer, chunk) then
        Some(Go(SetSlot(s, task.slot, slot.(buffer := Fill(slot.buffer, chunk), heard := slot.heard + chunk,
                                            chunks := slot.chunks + [chunk])),
                w, GotBytes(task, |chunk|)))
      else None
    case Again => if RecvSize(slot.buffer) != 0 then Some(Go(s, w, ClearBusy(task))) else None
    case Gone => Some(Go(s, w, CloseFd(task)))
  }

  // ------------------------------------------------------------ the reactor's steps

  function Return(s: State, back: Back): State {
    match back
    case ToAccept => s.(reactor := Accept)
    case ToScan(next) => s.(reactor := Scan(next))
  }

  function StartDestroy(s: State): State {
    s.(reactor := match s.option case Soft => Spin case DrainAndDrop => MarkLock)
  }

  function ReactorNext(s: State, c: Choice): Option<State>
    requires Wf(s)
  {
    match s.reactor
    case Watch(i) =>
      if i >= MAX_CONNS then Some(s.(reactor := Select))
      else
        var slot := s.slots[i];
        Some(s.(reactor := Watch(i + 1),
                watched := if slot.active && !slot.busy then s.watched[slot.fd := Watched(i, slot.cid)] else s.watched))
    case Select =>
      if c.SelectFailed? then Some(StartDestroy(s))
      else if c.Selected? && c.ready <= s.watched.Keys then
        Some(s.(ready := c.ready, reactor := if c.newConnection then Accept else Scan(0)))
      else None
    case Accept =>
      if c.NoneToAccept? then Some(s.(reactor := Scan(0)))
      else if c.Accepted? && c.fd !in s.net.open then
        var cid := s.net.accepted;
        Some(s.(net := s.net.(open := s.net.open[c.fd := cid], accepted := cid + 1), reactor := Claim(0, c.fd, cid)))
      else None
    case Claim(i, fd, cid) =>
      if i >= MAX_CONNS then Some(s.(reactor := Reject(fd, cid)))
      else if s.slots[i].active then Some(s.(reactor := Claim(i + 1, fd, cid)))
      else if c.Clock? then
        Some(SetSlot(s, i, s.slots[i].(fd := fd, cid := cid, lastActivity := c.now, active := true, busy := true))
             .(reactor := NewTask(i)))
      else None
    case Reject(fd, cid) => Some(s.(net := Close(s.net, fd), reactor := Accept))
    case NewTask(i) =>
      if c.Malloc? then Some(s.(reactor := if c.ok then AddLock(TaskFor(s, i), ToAccept) else DropFd(i, ToAccept))) else None
    case DropFd(i, back) => Some(s.(net := Close(s.net, s.slots[i].fd), reactor := DropSlot(i, back)))
    case DropSlot(i, back) => Some(Return(SetSlot(s, i, s.slots[i].(active := false)), back))
    case AddLock(task, back) =>
      if s.lock == Unlocked then Some(s.(lock := ByReactor, reactor := AddPush(task, back))) else None
    case AddPush(task, back) =>
      Some(s.(pool := AddWork(s.pool, task), added := s.added + [task], reactor := AddPost(back)))
    case AddPost(back) => Some(s.(sem := s.sem + 1, reactor := AddUnlock(back)))
    case AddUnlock(back) => Some(Return(s.(lock := Unlocked), back))
    case Scan(i) =>
      if i >= MAX_CONNS then
        if c.Clock? then Some(s.(reactor := Timeouts(0, c.now))) else None
      else
        var slot := s.slots[i];
        if slot.active && !slot.busy && slot.fd in s.ready then
          Some(SetSlot(s, i, slot.(busy := true)).(reactor := Dispatch(i)))
        else Some(s.(reactor := Scan(i + 1)))
    case Dispatch(i) =>
      if c.Malloc? then
        Some(s.(reactor := if c.ok then AddLock(TaskFor(s, i), ToScan(i + 1)) else DropFd(i, ToScan(i + 1))))
      else None
    case Timeouts(i, now) =>
      if i >= MAX_CONNS then Some(s.(reactor := Watch(0), watched := map[], ready := {}))
      else
        var slot := s.slots[i];
        Some(s.(reactor := if slot.active && !slot.busy && now - slot.lastActivity >= IDLE_LIMIT
                           then TimeoutFd(i, now) else Timeouts(i + 1, now)))
    case TimeoutFd(i, now) => Some(s.(net := Close(s.net, s.slots[i].fd), reactor := TimeoutSlot(i, now)))
    case TimeoutSlot(i, now) => Some(SetSlot(s, i, s.slots[i].(active := false)).(reactor := Timeouts(i + 1, now)))
    case Spin => Some(if s.pool.availableWork > 0 then s else s.(reactor := MarkLock))
    case MarkLock => if s.lock == Unlocked then Some(s.(lock := ByReactor, reactor := Mark(0))) else None
    case Mark(i) =>
      if i < |s.workers| then Some(s.(pool := Terminate(s.pool, i), reactor := Mark(i + 1)))
      else Some(s.(reactor := MarkUnlock))
    case MarkUnlock => Some(s.(lock := Unlocked, reactor := Post(0)))
    case Post(i) =>
      if i < |s.workers| then Some(s.(sem := s.sem + 1, reactor := Post(i + 1)))
      else Some(s.(reactor := Join(0)))
    case Join(i) =>
      if i < |s.workers| then
        if s.workers[i] == Exited then Some(s.(reactor := Join(i + 1))) else None
      else Some(s.(reactor := Done))
    case Done => None
  }

  /** The task for the connection in slot `i`; its id is its place in the order of adding. */
  function TaskFor(s: State, i: SlotIndex): Task {
    Task(|s.added|, s.slots[i].fd, s.slots[i].cid, i)
  }

  // --------------------------------------------------------------------- runs

  predicate ValidStep(s: State, st: Step) {
    Wf(s) && (st.WorkerStep? ==> st.w < |s.workers|)
  }

  function Next(s: State, st: Step): Option<State>
    requires ValidStep(s, st)
  {
    match st
    case WorkerStep(w, c) => WorkerNext(s, w, c)
    case ReactorStep(c) => ReactorNext(s, c)
  }

  predicate CanStep(s: State, st: Step, t: State) {
    ValidStep(s, st) && Next(s, st) == Some(t)
  }

  /** `t` is reached from `s` by the steps `run`. */
  predicate Reaches(s: State, run: seq<Step>, t: State)
    decreases |run|
  {
    if run == [] then s == t
    else ValidStep(s, run[0]) && Next(s, run[0]).Some? && Reaches(Next(s, run[0]).value, run[1..], t)
  }

  ghost predicate Reachable(s: State) {
    exists n: nat, option, run ::
      n > 0 && Reaches(Init(n, option), run, s)
  }
}
