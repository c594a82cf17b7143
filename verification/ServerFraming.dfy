/** Framing in every run: whatever the interleaving, the parser is called through a slot as if
  * the slot's chunks had been read one after the other.
  */
module ServerFraming {
  import opened Options
  import opened CStrings
  import opened Framing
  import opened HttpRequest
  import opened Pool
  import opened Server
  import opened ServerPool
  import opened ServerTasks
  import opened ServerSlots
  import opened ServerBuffers

  /** The bytes kept and the texts parsed after some chunks were read one after the other. */
  function Replay(chunks: seq<string>): (r: (string, seq<string>)) {
    if chunks == [] then ("", [])
    else
      var (heard, requests) := Replay(chunks[..|chunks| - 1]);
      var now := heard + chunks[|chunks| - 1];
      if Complete(CStr(now), |now|) then ("", requests + [CStr(now)]) else (now, requests)
  }

  /** How far the read of a slot's last chunk has come; after a request, whether its worker is
    * to keep the connection. */
  datatype Stage = Settling | Reading | Parsing | Clearing(keepAlive: bool) | Keeping(keepAlive: bool)

  function StageOf(w: Worker): Stage {
    match w
    case GotBytes(_, _) => Reading
    case Decide(_) => Reading
    case Serve(_) => Parsing
    case Reset(_, keepAlive) => Clearing(keepAlive)
    case KeepAliveTest(_, keepAlive) => Keeping(keepAlive)
    case _ => Settling
  }

  function StageOfSlot(s: State, own: Owners, i: SlotIndex): Stage {
    if own[i].Some? && own[i].value.HWorker? && own[i].value.w < |s.workers| then StageOf(s.workers[own[i].value.w])
    else Settling
  }

  /** The slot's history is that of a replay, up to the read in progress. */
  predicate LogOk(slot: Slot, stage: Stage) {
    if stage.Settling? || stage.Keeping? then
      && Replay(slot.chunks) == (slot.heard, slot.requests)
      && (stage.Keeping? ==>
            slot.requests != [] && stage.keepAlive == KeepsAlive(slot.requests[|slot.requests| - 1]))
    else
      && slot.chunks != []
      && var (heard, requests) := Replay(slot.chunks[..|slot.chunks| - 1]);
      && slot.heard == heard + slot.chunks[|slot.chunks| - 1]
      && slot.requests == requests + (if stage.Clearing? then [CStr(slot.heard)] else [])
      && (stage != Reading ==> Complete(CStr(slot.heard), |slot.heard|))
      && (stage.Clearing? ==> stage.keepAlive == KeepsAlive(CStr(slot.heard)))
  }

  predicate LogInv(s: State, own: Owners) {
    forall i: SlotIndex :: LogOk(s.slots[i], StageOfSlot(s, own, i))
  }

  lemma InitLogs(n: nat, option: DestroyOption)
    requires n > 0
    ensures LogInv(Init(n, option), NoOwners())
  {
  }

  predicate SameLog(one: Slot, two: Slot) {
    one.heard == two.heard && one.chunks == two.chunks && one.requests == two.requests
  }

  // ------------------------------------------------------------------ worker steps

  function Chunk(c: Choice): string {
    if c.Recv? && c.result.Bytes? then c.result.chunk else ""
  }

  /** What a worker's step does to the history of its slot. */
  lemma WorkingLogEffect(s: State, w: nat, c: Choice)
    requires Wf(s) && w < |s.workers| && Working(s.workers[w]) && WorkerNext(s, w, c).Some?
    ensures var t, i, p := WorkerNext(s, w, c).value, TaskOf(s.workers[w]).slot, s.workers[w];
            var from, to := s.slots[i], t.slots[i];
            && |t.workers| == |s.workers|
            && var q := t.workers[w];
            match p
            case AtRecv(_) =>
              if q.GotBytes? then
                && to.heard == from.heard + Chunk(c) && to.chunks == from.chunks + [Chunk(c)]
                && to.requests == from.requests
              else SameLog(from, to) && StageOf(q) == Settling
            case GotBytes(_, _) => SameLog(from, to) && q.Decide?
            case Decide(_) =>
              SameLog(from, to) && if RequestComplete(from.buffer) then q.Serve? else StageOf(q) == Settling
            case Serve(_) =>
              && to.heard == from.heard && to.chunks == from.chunks
              && to.requests == from.requests + [ParserInput(from.buffer)]
              && StageOf(q) == Clearing(KeepsAlive(ParserInput(from.buffer)))
            case Reset(_, keepAlive) =>
              && to.heard == "" && to.chunks == from.chunks && to.requests == from.requests
              && StageOf(q) == Keeping(keepAlive)
            case _ => SameLog(from, to) && StageOf(q) == Settling
  {
    hide Close, Advance, Fill, Fits, RequestComplete, ParserInput, KeepsAlive;
  }

  lemma ReadMore(slot: Slot, chunk: string)
    requires LogOk(slot, Settling)
    ensures forall r: Slot :: r.heard == slot.heard + chunk && r.chunks == slot.chunks + [chunk] && r.requests == slot.requests ==>
              LogOk(r, Reading)
  {
    assert (slot.chunks + [chunk])[..|slot.chunks|] == slot.chunks;
  }

  lemma ReadDecided(slot: Slot)
    requires LogOk(slot, Reading)
    ensures LogOk(slot, if Complete(CStr(slot.heard), |slot.heard|) then Parsing else Settling)
  {
    hide Complete, CStr, KeepsAlive;
    assert slot.requests + [] == slot.requests;
    var (heard, requests) := Replay(slot.chunks[..|slot.chunks| - 1]);
    assert slot.requests == requests;
  }

  lemma Parsed(slot: Slot)
    requires LogOk(slot, Parsing)
    ensures forall r: Slot :: r.heard == slot.heard && r.chunks == slot.chunks &&
                              r.requests == slot.requests + [CStr(slot.heard)] ==>
              LogOk(r, Clearing(KeepsAlive(CStr(slot.heard))))
  {
    hide Complete, CStr, KeepsAlive, Replay;
    var (heard, requests) := Replay(slot.chunks[..|slot.chunks| - 1]);
    assert slot.requests == requests;
  }

  lemma Cleared(slot: Slot, keepAlive: bool)
    requires LogOk(slot, Clearing(keepAlive))
    ensures forall r: Slot :: r.heard == "" && r.chunks == slot.chunks && r.requests == slot.requests ==>
              LogOk(r, Keeping(keepAlive))
  {
    hide Complete, CStr, KeepsAlive;
    var (heard, requests) := Replay(slot.chunks[..|slot.chunks| - 1]);
    assert slot.requests == requests + [CStr(slot.heard)];
    assert Replay(slot.chunks) == ("", slot.requests);
  }

  lemma WorkingKeepsLogs(s: State, own: Owners, w: nat, c: Choice)
    requires Wf(s) && SlotInv(s, own) && BufferInv(s, own) && LogInv(s, own)
    requires w < |s.workers| && Working(s.workers[w]) && WorkerNext(s, w, c).Some?
    ensures LogInv(WorkerNext(s, w, c).value, WorkerOwners(s, own, w))
  {
    hide WorkerNext, BufferInv, Complete, CStr, RequestComplete, ParserInput, KeepsAlive, Replay, KeepsAlive;
    var t := WorkerNext(s, w, c).value;
    var own' := WorkerOwners(s, own, w);
    var i := TaskOf(s.workers[w]).slot;
    WorkingFrame(s, w, c);
    WorkingEffect(s, w, c);
    WorkingLogEffect(s, w, c);
    if s.workers[w].AtFree? {
      FreeingTouchesNothing(s, w, c);
    } else {
      WorkerOwns(s, own, w);
    }
    assert LogOk(s.slots[i], StageOfSlot(s, own, i));
    match s.workers[w] {
      case AtRecv(_) => ReadMore(s.slots[i], Chunk(c));
      case Decide(_) =>
        DecisionFollowsWhatWasHeard(s, own, w);
        ReadDecided(s.slots[i]);
      case Serve(_) =>
        DecisionFollowsWhatWasHeard(s, own, w);
        Parsed(s.slots[i]);
      case Reset(_, keepAlive) => Cleared(s.slots[i], keepAlive);
      case _ =>
    }
    assert LogOk(t.slots[i], StageOfSlot(t, own', i));
    hide LogOk;
    forall j: SlotIndex | j != i
      ensures LogOk(t.slots[j], StageOfSlot(t, own', j))
    {
      assert LogOk(s.slots[j], StageOfSlot(s, own, j));
      assert own'[j] == own[j];
    }
  }

  lemma SectionsReadNothing(s: State, w: nat, c: Choice)
    requires Wf(s) && w < |s.workers| && !Working(s.workers[w]) && WorkerNext(s, w, c).Some?
    ensures StageOf(WorkerNext(s, w, c).value.workers[w]) == Settling == StageOf(s.workers[w])
  {
    hide Enter, Finish, DoRecv, Close, Advance, Fill, Fits, RequestComplete, ParserInput, KeepsAlive;
  }

  lemma SectionKeepsLogs(s: State, own: Owners, w: nat, c: Choice)
    requires Wf(s) && QueueInv(s) && SlotInv(s, own) && LogInv(s, own)
    requires w < |s.workers| && !Working(s.workers[w]) && WorkerNext(s, w, c).Some?
    ensures LogInv(WorkerNext(s, w, c).value, WorkerOwners(s, own, w))
  {
    hide WorkerNext, LogOk;
    var t := WorkerNext(s, w, c).value;
    SectionFrame(s, w, c);
    SectionsReadNothing(s, w, c);
    if s.pool.queue != [] {
      assert s.pool.queue[0] == s.added[Popped(s)];
      assert Holds(s, HQueued(Popped(s)), s.pool.queue[0].slot);
    }
    forall j: SlotIndex
      ensures LogOk(t.slots[j], StageOfSlot(t, WorkerOwners(s, own, w), j))
    {
      assert LogOk(s.slots[j], StageOfSlot(s, own, j));
    }
  }

  lemma WorkerKeepsLogs(s: State, own: Owners, w: nat, c: Choice)
    requires PoolInv(s) && TaskInv(s) && SlotInv(s, own) && BufferInv(s, own) && LogInv(s, own)
    requires w < |s.workers| && WorkerNext(s, w, c).Some?
    ensures LogInv(WorkerNext(s, w, c).value, WorkerOwners(s, own, w))
  {
    assert QueueInv(s) && Wf(s);
    hide WorkerNext, PoolInv, TaskInv, SlotInv, BufferInv, LogInv;
    if Working(s.workers[w]) {
      WorkingKeepsLogs(s, own, w, c);
    } else {
      SectionKeepsLogs(s, own, w, c);
    }
  }

  // ----------------------------------------------------------------- reactor steps

  lemma ReactorKeepsLogs(s: State, own: Owners, c: Choice)
    requires Wf(s) && SlotInv(s, own) && LogInv(s, own) && ReactorNext(s, c).Some?
    ensures LogInv(ReactorNext(s, c).value, ReactorOwners(s, own))
  {
    var t := ReactorNext(s, c).value;
    var own' := ReactorOwners(s, own);
    ReactorTaskFrame(s, c);
    ReactorSlotEffect(s, c);
    hide ReactorNext, LogOk, StageOf;
    assert s.reactor.DropSlot? ==> Holds(s, HReactor, s.reactor.slot);
    assert s.reactor.AddPush? ==> Holds(s, HReactor, s.reactor.task.slot);
    assert forall i: SlotIndex :: SameLog(s.slots[i], t.slots[i]);
    forall i: SlotIndex
      ensures LogOk(t.slots[i], StageOfSlot(t, own', i))
    {
      assert LogOk(s.slots[i], StageOfSlot(s, own, i));
      assert StageOfSlot(t, own', i) == StageOfSlot(s, own, i);
      SameLogIsOk(s.slots[i], t.slots[i], StageOfSlot(s, own, i));
    }
  }

  lemma SameLogIsOk(one: Slot, two: Slot, stage: Stage)
    requires SameLog(one, two) && LogOk(one, stage)
    ensures LogOk(two, stage)
  {
    hide Replay, KeepsAlive, Complete, CStr;
  }

  // ------------------------------------------------------------------ fragmentation

  lemma {:induction false} ReplayPartOfRequest(before: seq<string>, chunks: seq<string>, head: string, body: string)
    requires WellFramed(head, body) && Replay(before).0 == ""
    requires Concat(chunks) <= head + body && |Concat(chunks)| < |head + body|
    ensures Replay(before + chunks) == (Concat(chunks), Replay(before).1)
    decreases |chunks|
  {
    hide Complete, CStr, WellFramed;
    if chunks == [] {
      assert before + chunks == before;
    } else {
      ConcatSnoc(chunks);
      var front := chunks[..|chunks| - 1];
      ReplayPartOfRequest(before, front, head, body);
      assert (before + chunks)[..|before + chunks| - 1] == before + front;
      ProperPrefixIsIncomplete(head, body, Concat(chunks));
    }
  }

  /** From an empty buffer on, a well-framed request cut into non-empty chunks is parsed exactly
    * once and whole. */
  lemma ReplayRequest(before: seq<string>, chunks: seq<string>, head: string, body: string)
    requires WellFramed(head, body) && Replay(before).0 == "" && Concat(chunks) == head + body
    requires NoneEmpty(chunks)
    ensures Replay(before + chunks) == ("", Replay(before).1 + [CStr(head + body)])
  {
    hide *;
    HeadIsNotEmpty(head, body);
    BeforeLastChunk(chunks, head + body);
    LastChunkCompletes(before, chunks[..|chunks| - 1], chunks[|chunks| - 1], head, body);
    assert chunks == chunks[..|chunks| - 1] + [chunks[|chunks| - 1]];
  }

  lemma LastChunkCompletes(before: seq<string>, front: seq<string>, last: string, head: string, body: string)
    requires WellFramed(head, body) && Replay(before).0 == ""
    requires Concat(front) + last == head + body && Concat(front) <= head + body && |Concat(front)| < |head + body|
    ensures Replay(before + (front + [last])) == ("", Replay(before).1 + [CStr(head + body)])
  {
    hide *;
    ReplayPartOfRequest(before, front, head, body);
    WholeIsComplete(head, body);
    ReplayLast(before + front, last, head + body);
    assert before + (front + [last]) == before + front + [last];
  }

  lemma ReplayLast(chunks: seq<string>, last: string, r: string)
    requires Replay(chunks).0 + last == r && Complete(CStr(r), |r|)
    ensures Replay(chunks + [last]) == ("", Replay(chunks).1 + [CStr(r)])
  {
    hide Complete, CStr;
    assert (chunks + [last])[..|chunks + [last]| - 1] == chunks;
  }
}
