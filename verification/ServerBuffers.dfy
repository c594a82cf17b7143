/** The read buffers over all runs, including the reuse of slots. */
module ServerBuffers {
  import opened Options
  import opened CStrings
  import opened Framing
  import opened HttpRequest
  import opened Pool
  import opened Server
  import opened ServerPool
  import opened ServerTasks
  import opened ServerSlots

  /** How many bytes a worker has received into the slot but not yet counted. */
  function Uncounted(s: State, own: Owners, i: SlotIndex): nat {
    if own[i].Some? && own[i].value.HWorker? && own[i].value.w < |s.workers| && s.workers[own[i].value.w].GotBytes?
    then s.workers[own[i].value.w].n else 0
  }

  /** The buffer starts with everything heard through the slot since its last completed
    * request; outside a read it is settled. */
  predicate BufferOk(slot: Slot, uncounted: nat) {
    && |slot.buffer.bytes| == BUFFER_SIZE
    && 0 <= slot.buffer.length && slot.buffer.length + uncounted < BUFFER_SIZE
    && slot.heard == slot.buffer.bytes[..slot.buffer.length + uncounted]
    && (uncounted == 0 ==> Settled(slot.buffer))
  }

  predicate BufferInv(s: State, own: Owners) {
    && (forall i: SlotIndex :: BufferOk(s.slots[i], Uncounted(s, own, i)))
    && (forall w :: 0 <= w < |s.workers| && s.workers[w].GotBytes? ==> s.workers[w].n > 0)
  }

  lemma InitBuffers(n: nat, option: DestroyOption)
    requires n > 0
    ensures BufferInv(Init(n, option), NoOwners())
  {
  }

  /** What a worker's step does to the buffer of its slot. */
  lemma WorkingBufferEffect(s: State, w: nat, c: Choice)
    requires Wf(s) && w < |s.workers| && Working(s.workers[w]) && WorkerNext(s, w, c).Some?
    ensures var t, i, p := WorkerNext(s, w, c).value, TaskOf(s.workers[w]).slot, s.workers[w];
            && |t.workers| == |s.workers|
            && var q := t.workers[w];
            && (p.AtRecv? && q.GotBytes? ==>
                  && c.Recv? && c.result.Bytes? && c.result.chunk != [] && Fits(s.slots[i].buffer, c.result.chunk)
                  && q.n == |c.result.chunk|
                  && t.slots[i].buffer == Fill(s.slots[i].buffer, c.result.chunk)
                  && t.slots[i].heard == s.slots[i].heard + c.result.chunk)
            && (p.GotBytes? ==>
                  && |s.slots[i].buffer.bytes| == BUFFER_SIZE
                  && 0 <= s.slots[i].buffer.length && s.slots[i].buffer.length + p.n < BUFFER_SIZE
                  && t.slots[i].buffer == Advance(s.slots[i].buffer, p.n) && t.slots[i].heard == s.slots[i].heard)
            && (p.Reset? ==> t.slots[i].buffer == EMPTY && t.slots[i].heard == "")
            && (q.GotBytes? ==> p.AtRecv?)
            && (!q.GotBytes? && !p.GotBytes? && !p.Reset? ==>
                  t.slots[i].buffer == s.slots[i].buffer && t.slots[i].heard == s.slots[i].heard)
  {
    hide Close, Advance, Fill, Fits, RequestComplete, ParserInput, KeepsAlive;
  }

  lemma FillOk(slot: Slot, chunk: string)
    requires BufferOk(slot, 0) && chunk != [] && Fits(slot.buffer, chunk)
    ensures forall r: Slot :: r.buffer == Fill(slot.buffer, chunk) && r.heard == slot.heard + chunk ==>
              BufferOk(r, |chunk|)
  {
  }

  lemma EmptyOk(slot: Slot)
    requires slot.buffer == EMPTY && slot.heard == ""
    ensures BufferOk(slot, 0)
  {
  }

  lemma AdvanceOk(slot: Slot, n: nat)
    requires BufferOk(slot, n)
    ensures forall r: Slot :: r.buffer == Advance(slot.buffer, n) && r.heard == slot.heard ==> BufferOk(r, 0)
  {
    assert Received(Advance(slot.buffer, n)) == slot.heard;
  }

  lemma WorkingKeepsBuffers(s: State, own: Owners, w: nat, c: Choice)
    requires Wf(s) && SlotInv(s, own) && BufferInv(s, own)
    requires w < |s.workers| && Working(s.workers[w]) && WorkerNext(s, w, c).Some?
    ensures BufferInv(WorkerNext(s, w, c).value, WorkerOwners(s, own, w))
  {
    hide WorkerNext, Advance, Fill, Fits, Settled;
    var t := WorkerNext(s, w, c).value;
    var own' := WorkerOwners(s, own, w);
    var i := TaskOf(s.workers[w]).slot;
    WorkingFrame(s, w, c);
    WorkingEffect(s, w, c);
    WorkingBufferEffect(s, w, c);
    if s.workers[w].AtFree? {
      FreeingTouchesNothing(s, w, c);
    } else {
      WorkerOwns(s, own, w);
    }
    assert BufferOk(s.slots[i], Uncounted(s, own, i));
    if t.workers[w].GotBytes? {
      FillOk(s.slots[i], c.result.chunk);
    } else if s.workers[w].GotBytes? {
      AdvanceOk(s.slots[i], s.workers[w].n);
    } else if s.workers[w].Reset? {
      EmptyOk(t.slots[i]);
    }
    assert BufferOk(t.slots[i], Uncounted(t, own', i));
    hide BufferOk;
    forall j: SlotIndex | j != i
      ensures BufferOk(t.slots[j], Uncounted(t, own', j))
    {
      assert BufferOk(s.slots[j], Uncounted(s, own, j));
      assert own'[j] == own[j];
    }
  }

  lemma SectionKeepsBuffers(s: State, own: Owners, w: nat, c: Choice)
    requires Wf(s) && QueueInv(s) && SlotInv(s, own) && BufferInv(s, own)
    requires w < |s.workers| && !Working(s.workers[w]) && WorkerNext(s, w, c).Some?
    ensures BufferInv(WorkerNext(s, w, c).value, WorkerOwners(s, own, w))
  {
    hide WorkerNext, BufferOk;
    var t := WorkerNext(s, w, c).value;
    SectionFrame(s, w, c);
    SectionsReceiveNothing(s, w, c);
    if s.pool.queue != [] {
      assert s.pool.queue[0] == s.added[Popped(s)];
      assert Holds(s, HQueued(Popped(s)), s.pool.queue[0].slot);
    }
    forall j: SlotIndex
      ensures BufferOk(t.slots[j], Uncounted(t, WorkerOwners(s, own, w), j))
    {
      assert BufferOk(s.slots[j], Uncounted(s, own, j));
    }
  }

  lemma SectionsReceiveNothing(s: State, w: nat, c: Choice)
    requires Wf(s) && w < |s.workers| && !Working(s.workers[w]) && WorkerNext(s, w, c).Some?
    ensures !WorkerNext(s, w, c).value.workers[w].GotBytes?
  {
    hide Enter, Finish, DoRecv, Close, Advance, Fill, Fits, RequestComplete, ParserInput, KeepsAlive;
  }

  lemma WorkerKeepsBuffers(s: State, own: Owners, w: nat, c: Choice)
    requires PoolInv(s) && TaskInv(s) && SlotInv(s, own) && BufferInv(s, own)
      && w < |s.workers| && WorkerNext(s, w, c).Some?
    ensures BufferInv(WorkerNext(s, w, c).value, WorkerOwners(s, own, w))
  {
    assert QueueInv(s) && Wf(s);
    hide WorkerNext, PoolInv, TaskInv, SlotInv, BufferInv;
    if Working(s.workers[w]) {
      WorkingKeepsBuffers(s, own, w, c);
    } else {
      SectionKeepsBuffers(s, own, w, c);
    }
  }

  lemma ReactorKeepsBuffers(s: State, own: Owners, c: Choice)
    requires Wf(s) && SlotInv(s, own) && BufferInv(s, own) && ReactorNext(s, c).Some?
    ensures BufferInv(ReactorNext(s, c).value, ReactorOwners(s, own))
  {
    var t := ReactorNext(s, c).value;
    var own' := ReactorOwners(s, own);
    ReactorTaskFrame(s, c);
    ReactorSlotEffect(s, c);
    hide ReactorNext;
    assert s.reactor.DropSlot? ==> Holds(s, HReactor, s.reactor.slot);
    assert s.reactor.AddPush? ==> Holds(s, HReactor, s.reactor.task.slot);
    forall i: SlotIndex
      ensures BufferOk(t.slots[i], Uncounted(t, own', i))
    {
      assert BufferOk(s.slots[i], Uncounted(s, own, i));
      assert Uncounted(t, own', i) == Uncounted(s, own, i);
    }
  }

  // ------------------------------------------------------------------- theorems

  /** A worker about to receive asks for a number of bytes that is not negative, and fills
    * the buffer of the connection it serves. */
  lemma RecvSizeIsNotNegative(s: State, own: Owners, w: nat)
    requires SlotInv(s, own) && BufferInv(s, own) && w < |s.workers| && s.workers[w].AtRecv?
    ensures 0 <= RecvSize(s.slots[s.workers[w].task.slot].buffer) < BUFFER_SIZE
    ensures Settled(s.slots[s.workers[w].task.slot].buffer)
  {
    WorkerOwns(s, own, w);
    assert BufferOk(s.slots[s.workers[w].task.slot], Uncounted(s, own, s.workers[w].task.slot));
  }

  /** Whether a worker goes on to parse depends only on what was heard through the slot since
    * its last completed request, and that is what the parser sees. */
  lemma DecisionFollowsWhatWasHeard(s: State, own: Owners, w: nat)
    requires SlotInv(s, own) && BufferInv(s, own) && w < |s.workers| && (s.workers[w].Decide? || s.workers[w].Serve?)
    ensures var slot := s.slots[s.workers[w].task.slot];
            && RequestComplete(slot.buffer) == Complete(CStr(slot.heard), |slot.heard|)
            && ParserInput(slot.buffer) == CStr(slot.heard)
  {
    WorkerOwns(s, own, w);
    var slot := s.slots[s.workers[w].task.slot];
    assert BufferOk(slot, Uncounted(s, own, s.workers[w].task.slot));
    OnlyReceivedBytesMatter(slot.buffer);
  }
}
