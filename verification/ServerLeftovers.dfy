/** What a slot keeps when it changes hands: the bytes of an unfinished request go to the next
  * connection, and a slot whose buffer is full is never heard through again.
  */
module ServerLeftovers {
  import opened Options
  import opened CStrings
  import opened Framing
  import opened HttpRequest
  import opened Pool
  import opened Server
  import opened ServerPool
  import opened ServerTasks
  import opened ServerSlots
  import opened ServerBuffers
  import opened ServerFraming
  import opened ServerSafety

  // ------------------------------------------------------------------- longer runs

  lemma {:induction false} ReachesMore(s: State, run: seq<Step>, t: State, st: Step)
    requires Reaches(s, run, t) && ValidStep(t, st) && Next(t, st).Some?
    ensures Reaches(s, run + [st], Next(t, st).value)
    decreases |run|
  {
    hide Next;
    if run == [] {
      assert run + [st] == [st] && [st][1..] == [];
    } else {
      assert (run + [st])[1..] == run[1..] + [st];
      ReachesMore(Next(s, run[0]).value, run[1..], t, st);
    }
  }

  /** A reachable state's successor is reachable. */
  lemma StepIsReachable(s: State, st: Step)
    requires Reachable(s) && ValidStep(s, st) && Next(s, st).Some?
    ensures Reachable(Next(s, st).value)
  {
    hide Next, Init, Reaches;
    var n: nat, option, run :| n > 0 && Reaches(Init(n, option), run, s);
    ReachesMore(Init(n, option), run, s, st);
  }

  // ------------------------------------------------------------------- a full slot

  predicate Full(slot: Slot) {
    |slot.heard| == BUFFER_SIZE - 1
  }

  /** A worker that receives through a full slot asks for no byte, and goes on to close. */
  lemma FullReceives(s: State, w: nat, c: Choice)
    requires Wf(s) && w < |s.workers| && s.workers[w].AtRecv? && WorkerNext(s, w, c).Some?
    requires Settled(s.slots[s.workers[w].task.slot].buffer)
    requires s.slots[s.workers[w].task.slot].buffer.length == BUFFER_SIZE - 1
    ensures WorkerNext(s, w, c).value == Go(s, w, CloseFd(s.workers[w].task))
  {
    hide Fill, Advance;
  }

  lemma FullWorkingStep(s: State, w: nat, c: Choice, i: SlotIndex)
    requires Wf(s) && w < |s.workers| && Working(s.workers[w]) && WorkerNext(s, w, c).Some?
    requires NotReading(s, i) && Full(s.slots[i]) && Settled(s.slots[i].buffer) && Received(s.slots[i].buffer) == s.slots[i].heard
    ensures var t := WorkerNext(s, w, c).value; SameLog(s.slots[i], t.slots[i]) && NotReading(t, i)
  {
    hide WorkerNext;
    WorkingFrame(s, w, c);
    WorkingEffect(s, w, c);
    WorkingHold(s, w, c);
    WorkingLogEffect(s, w, c);
    if s.workers[w].AtRecv? && s.workers[w].task.slot == i {
      FullReceives(s, w, c);
    }
  }

  lemma FullSectionStep(s: State, w: nat, c: Choice, i: SlotIndex)
    requires Wf(s) && w < |s.workers| && !Working(s.workers[w]) && WorkerNext(s, w, c).Some?
    requires NotReading(s, i)
    ensures var t := WorkerNext(s, w, c).value; SameLog(s.slots[i], t.slots[i]) && NotReading(t, i)
  {
    hide WorkerNext;
    SectionFrame(s, w, c);
    SectionsReadNothing(s, w, c);
  }

  lemma FullReactorStep(s: State, c: Choice, i: SlotIndex)
    requires Wf(s) && ReactorNext(s, c).Some? && NotReading(s, i)
    ensures var t := ReactorNext(s, c).value; SameLog(s.slots[i], t.slots[i]) && NotReading(t, i)
  {
    hide ReactorNext;
    ReactorTaskFrame(s, c);
    ReactorSlotEffect(s, c);
  }

  /** No step makes a full slot hear or ask for anything more. */
  lemma FullStep(s: State, st: Step, t: State, i: SlotIndex)
    requires Reachable(s) && CanStep(s, st, t) && NotReading(s, i) && Full(s.slots[i])
    ensures Reachable(t) && SameLog(s.slots[i], t.slots[i]) && NotReading(t, i)
  {
    hide WorkerNext, ReactorNext, Reachable;
    StepIsReachable(s, st);
    BuffersAreSound(s);
    match st
    case WorkerStep(w, c) =>
      if Working(s.workers[w]) {
        assert forall v :: 0 <= v < |s.workers| && s.workers[v].GotBytes? ==> s.workers[v].task.slot != i;
        FullWorkingStep(s, w, c, i);
      } else {
        FullSectionStep(s, w, c, i);
      }
    case ReactorStep(c) => FullReactorStep(s, c, i);
  }

  /** A slot whose buffer is full is never heard through again: on every run from then on, what
    * it has heard, the chunks received through it and the texts parsed for it stay the same,
    * whichever connections claim it. */
  lemma {:induction false} FullSlotStaysDeaf(s: State, run: seq<Step>, t: State, i: SlotIndex)
    requires Reachable(s) && Reaches(s, run, t) && NotReading(s, i) && Full(s.slots[i])
    ensures Reachable(t) && SameLog(s.slots[i], t.slots[i]) && NotReading(t, i)
    decreases |run|
  {
    hide Next, Reachable, NotReading;
    if run != [] {
      var u := Next(s, run[0]).value;
      FullStep(s, run[0], u, i);
      FullSlotStaysDeaf(u, run[1..], t, i);
    }
  }

  /** So every later connection in it is closed unread: a worker about to receive through the slot
    * can only go on to close the descriptor, which is that of the slot's connection. */
  lemma FullSlotClosesUnread(s: State, w: nat, c: Choice, t: State)
    requires Reachable(s) && CanStep(s, WorkerStep(w, c), t) && s.workers[w].AtRecv?
    requires NotReading(s, s.workers[w].task.slot) && Full(s.slots[s.workers[w].task.slot])
    ensures |t.workers| == |s.workers| && t.workers[w] == CloseFd(s.workers[w].task)
    ensures t.slots == s.slots
    ensures var task := s.workers[w].task;
            Denotes(s, task.fd, task.cid) && task.cid == s.slots[task.slot].cid
  {
    hide WorkerNext, Reachable;
    BuffersAreSound(s);
    DescriptorsAreNeverMistaken(s);
    var i := s.workers[w].task.slot;
    assert forall v :: 0 <= v < |s.workers| && s.workers[v].GotBytes? ==> s.workers[v].task.slot != i;
    FullReceives(s, w, c);
  }

  // ------------------------------------------------------------ left-over bytes are real

  /** A step of a run that is being built. */
  lemma Does(s: State, st: Step) returns (t: State)
    requires Reachable(s) && ValidStep(s, st) && Next(s, st).Some?
    ensures t == Next(s, st).value && Reachable(t)
  {
    hide Next, Reachable;
    StepIsReachable(s, st);
    t := Next(s, st).value;
  }

  /** The reactor finds no idle slot to watch. */
  lemma {:induction false} WatchesNone(s: State, i: nat)
    requires Reachable(s) && Wf(s) && s.reactor == Watch(i) && i <= MAX_CONNS
    requires forall j: SlotIndex :: !Idle(s.slots[j])
    ensures Reachable(s.(reactor := Select))
    decreases MAX_CONNS - i
  {
    hide Reachable;
    var t := Does(s, ReactorStep(Nothing));
    if i < MAX_CONNS {
      WatchesNone(t, i + 1);
    }
  }

  /** It finds no ready one. */
  lemma {:induction false} ScansNone(s: State, i: nat)
    requires Reachable(s) && Wf(s) && s.reactor == Scan(i) && i <= MAX_CONNS && s.ready == {}
    ensures Reachable(s.(reactor := Scan(MAX_CONNS)))
    decreases MAX_CONNS - i
  {
    hide Reachable;
    if i < MAX_CONNS {
      var t := Does(s, ReactorStep(Nothing));
      ScansNone(t, i + 1);
    }
  }

  /** And no idle one to time out. */
  lemma {:induction false} TimesOutNone(s: State, i: nat, now: int)
    requires Reachable(s) && Wf(s) && s.reactor == Timeouts(i, now) && i <= MAX_CONNS
    requires forall j: SlotIndex :: !Idle(s.slots[j])
    ensures Reachable(s.(reactor := Watch(0), watched := map[], ready := {}))
    decreases MAX_CONNS - i
  {
    hide Reachable;
    var t := Does(s, ReactorStep(Nothing));
    if i < MAX_CONNS {
      TimesOutNone(t, i + 1, now);
    }
  }

  /** The slot after a claim. */
  function Claimed(slot: Slot, cid: int): Slot {
    slot.(fd := 0, cid := cid, lastActivity := 0, active := true, busy := true)
  }

  /** A new connection takes the first slot. */
  lemma TakesSlot(s: State) returns (t: State)
    requires Reachable(s) && Wf(s) && s.reactor == Select && s.watched == map[] && s.ready == {}
    requires !s.slots[0].active && 0 !in s.net.open
    ensures Reachable(t)
    ensures t == s.(reactor := NewTask(0), slots := s.slots[0 := Claimed(s.slots[0], s.net.accepted)],
                    net := s.net.(open := s.net.open[0 := s.net.accepted], accepted := s.net.accepted + 1))
  {
    hide Reachable;
    t := Does(s, ReactorStep(Selected({}, true)));
    t := Does(t, ReactorStep(Accepted(0)));
    t := Does(t, ReactorStep(Clock(0)));
  }

  /** Its task is added. */
  lemma AddsTask(s: State) returns (t: State)
    requires Reachable(s) && Wf(s) && s.reactor == NewTask(0) && s.lock == Unlocked
    ensures Reachable(t)
    ensures t == s.(reactor := Accept, pool := AddWork(s.pool, TaskFor(s, 0)), added := s.added + [TaskFor(s, 0)], sem := s.sem + 1)
  {
    hide Reachable;
    t := Does(s, ReactorStep(Malloc(true)));
    t := Does(t, ReactorStep(Nothing));
    t := Does(t, ReactorStep(Nothing));
    t := Does(t, ReactorStep(Nothing));
    t := Does(t, ReactorStep(Nothing));
  }

  /** The only worker wakes up and pops the only task. */
  lemma PopsTask(s: State) returns (t: State)
    requires Reachable(s) && |s.workers| == 1 && |s.pool.cells| == 1
    requires s.workers[0] == AtWait && s.sem == 1 && s.lock == Unlocked
    requires |s.pool.queue| == 1 && s.pool.availableWork == 1 && s.pool.cells[0] != Terminated
    ensures Reachable(t)
    ensures t == s.(workers := [AtRecv(s.pool.queue[0])], sem := 0, pool := Enter(s.pool, 0).0)
  {
    hide Reachable;
    t := Does(s, WorkerStep(0, Nothing));
    t := Does(t, WorkerStep(0, Nothing));
    t := Does(t, WorkerStep(0, Nothing));
    t := Does(t, WorkerStep(0, Nothing));
  }

  /** It reports back and waits again. */
  lemma ReportsBack(s: State, task: Task) returns (t: State)
    requires Reachable(s) && |s.workers| == 1 && |s.pool.cells| == 1
    requires s.workers[0] == AtFree(task) && s.lock == Unlocked && s.pool.cells[0] != Terminated
    ensures Reachable(t)
    ensures t == s.(workers := [AtWait], finished := s.finished + [task.id], pool := Finish(s.pool, 0).0)
  {
    hide Reachable;
    t := Does(s, WorkerStep(0, Nothing));
    t := Does(t, WorkerStep(0, Nothing));
    t := Does(t, WorkerStep(0, Nothing));
    t := Does(t, WorkerStep(0, Nothing));
  }

  /** The slot after a chunk that completes no request. */
  function Unfinished(slot: Slot, chunk: string): Slot
    requires Fits(slot.buffer, chunk)
  {
    slot.(buffer := Advance(Fill(slot.buffer, chunk), |chunk|), heard := slot.heard + chunk,
          chunks := slot.chunks + [chunk], busy := false, lastActivity := 0)
  }

  /** In between, it receives a chunk; */
  lemma ReceivesChunk(s: State, task: Task, chunk: string) returns (t: State)
    requires Reachable(s) && Wf(s) && |s.workers| == 1 && s.workers[0] == AtRecv(task)
    requires Fits(s.slots[task.slot].buffer, chunk) && chunk != []
    ensures Reachable(t)
    ensures var slot := s.slots[task.slot];
            t == s.(workers := [Decide(task)],
                    slots := s.slots[task.slot := slot.(buffer := Advance(Fill(slot.buffer, chunk), |chunk|),
                                                        heard := slot.heard + chunk, chunks := slot.chunks + [chunk])])
  {
    hide Reachable, RequestComplete, Fill, Advance;
    t := Does(s, WorkerStep(0, Recv(Bytes(chunk))));
    t := Does(t, WorkerStep(0, Nothing));
  }

  /** which completes no request. */
  lemma LeavesUnfinished(s: State, task: Task) returns (t: State)
    requires Reachable(s) && Wf(s) && |s.workers| == 1 && s.workers[0] == Decide(task)
    requires !RequestComplete(s.slots[task.slot].buffer)
    ensures Reachable(t)
    ensures t == s.(workers := [AtFree(task)],
                    slots := s.slots[task.slot := s.slots[task.slot].(busy := false, lastActivity := 0)])
  {
    hide Reachable, RequestComplete;
    t := Does(s, WorkerStep(0, Nothing));
    t := Does(t, WorkerStep(0, Clock(0)));
    t := Does(t, WorkerStep(0, Nothing));
  }

  lemma ReadsChunk(s: State, task: Task, chunk: string) returns (t: State)
    requires Reachable(s) && Wf(s) && |s.workers| == 1 && s.workers[0] == AtRecv(task)
    requires s.slots[task.slot].buffer == EMPTY && chunk != [] && |chunk| < BUFFER_SIZE && !Complete(CStr(chunk), |chunk|)
    ensures Reachable(t)
    ensures t == s.(workers := [AtFree(task)], slots := s.slots[task.slot := Unfinished(s.slots[task.slot], chunk)])
  {
    hide Reachable, Complete, CStr, RequestComplete;
    var b := Advance(Fill(EMPTY, chunk), |chunk|);
    assert Received(b) == chunk;
    OnlyReceivedBytesMatter(b);
    hide Fill, Advance;
    t := ReceivesChunk(s, task, chunk);
    t := LeavesUnfinished(t, task);
  }

  /** A first connection's task is queued; */
  lemma FirstTask() returns (t: State)
    ensures Reachable(t) && t.reactor == Accept && t.lock == Unlocked && t.watched == map[] && t.ready == {}
    ensures t.workers == [AtWait] && t.sem == 1 && t.pool.cells == [Free]
    ensures t.pool.queue == [Task(0, 0, 0, 0)] && t.pool.availableWork == 1
    ensures t.slots == InitSlots()[0 := Claimed(InitSlots()[0], 0)]
    ensures t.net == Net(map[0 := 0], 1, [], 0)
  {
    hide Reachable;
    var s := Init(1, Soft);
    assert Reachable(s) by { StartIsReachable(); }
    WatchesNone(s, 0);
    s := TakesSlot(s.(reactor := Select));
    t := AddsTask(s);
  }

  /** it sends the chunk and then nothing more. */
  lemma FirstConnection(chunk: string) returns (t: State)
    requires chunk != [] && |chunk| < BUFFER_SIZE && !Complete(CStr(chunk), |chunk|)
    ensures Reachable(t) && Wf(t) && t.reactor == Accept && t.lock == Unlocked && t.watched == map[] && t.ready == {}
    ensures t.workers == [AtWait] && t.net == Net(map[0 := 0], 1, [], 0)
    ensures t.slots == InitSlots()[0 := Unfinished(Claimed(InitSlots()[0], 0), chunk)]
  {
    hide Reachable, Complete, CStr, Fill, Advance;
    var s := FirstTask();
    s := PopsTask(s);
    var task := s.workers[0].task;
    s := ReadsChunk(s, task, chunk);
    t := ReportsBack(s, task);
  }

  lemma StartIsReachable()
    ensures Reachable(Init(1, Soft))
  {
    assert Reaches(Init(1, Soft), [], Init(1, Soft));
  }

  /** It is timed out, and its descriptor closed. */
  lemma TimesOut(s: State) returns (t: State)
    requires Reachable(s) && Wf(s) && s.reactor == Accept && s.watched == map[] && s.ready == {}
    requires Idle(s.slots[0]) && s.slots[0].lastActivity == 0 && s.slots[0].fd == 0 && s.net.open == map[0 := 0]
    requires forall j: SlotIndex :: j != 0 ==> !s.slots[j].active
    ensures Reachable(t)
    ensures t == s.(reactor := Select, slots := s.slots[0 := s.slots[0].(active := false)],
                    net := s.net.(open := map[], closed := s.net.closed + [0]))
  {
    hide Reachable;
    t := Does(s, ReactorStep(NoneToAccept));
    ScansNone(t, 0);
    t := Does(t.(reactor := Scan(MAX_CONNS)), ReactorStep(Clock(IDLE_LIMIT)));
    t := Does(t, ReactorStep(Nothing));
    t := Does(t, ReactorStep(Nothing));
    assert t.net.open == map[];
    t := Does(t, ReactorStep(Nothing));
    TimesOutNone(t, 1, IDLE_LIMIT);
    t := t.(reactor := Watch(0), watched := map[], ready := {});
    WatchesNone(t, 0);
    t := t.(reactor := Select);
  }

  /** The failing input of framing is real: for every chunk that completes no request there is a
    * run after which a new, second connection has just claimed a slot that still holds the chunk
    * of the first one, which is closed. */
  lemma UnfinishedRequestsAreInherited(chunk: string) returns (s: State)
    requires chunk != [] && |chunk| < BUFFER_SIZE && !Complete(CStr(chunk), |chunk|)
    ensures Reachable(s) && s.reactor == NewTask(0) && InUse(s.slots[0])
    ensures s.slots[0].cid == 1 && s.net.closed == [0]
    ensures s.slots[0].heard == chunk && s.slots[0].requests == [] && NotReading(s, 0)
    ensures Settled(s.slots[0].buffer) && Received(s.slots[0].buffer) == chunk
  {
    hide Reachable, Complete, CStr;
    s := FirstConnection(chunk);
    s := TimesOut(s);
    s := TakesSlot(s);
  }

  function Repeated(c: char, n: nat): (r: string)
    ensures |r| == n && forall k :: 0 <= k < n ==> r[k] == c
  {
    seq(n, _ => c)
  }

  /** And slots do go deaf: 8191 bytes without a blank line fill one. */
  lemma SlotsCanGoDeaf() returns (s: State)
    ensures Reachable(s) && s.reactor == NewTask(0) && InUse(s.slots[0]) && s.slots[0].cid == 1
    ensures NotReading(s, 0) && Full(s.slots[0])
  {
    hide Reachable, Complete, CStr, OccursAt;
    var chunk := Repeated('x', BUFFER_SIZE - 1);
    forall j: nat
      ensures !OccursAt(chunk, BLANK_LINE, j)
    {
      Fitting(chunk, BLANK_LINE, j);
    }
    PartOfHeadIsIncomplete(chunk, chunk);
    s := UnfinishedRequestsAreInherited(chunk);
  }

  lemma Fitting(t: string, pattern: string, j: nat)
    requires pattern != []
    ensures OccursAt(t, pattern, j) ==> j < |t| && t[j] == pattern[0]
  {
    if OccursAt(t, pattern, j) {
      assert t[j..j + |pattern|][0] == pattern[0];
    }
  }
}
