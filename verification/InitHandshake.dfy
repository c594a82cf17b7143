/** The start-up handshake of thread_pool_init: one argument block is rewritten for every thread,
  * and the init semaphore lets the main thread go on only when the new thread has read it.
  */
module InitHandshake {
  import opened Options

  /** The main thread's place in the loop for thread `i`; Prepare(n) leaves the loop. */
  datatype MainPc = Prepare(i: nat) | Spawn(i: nat) | Await(i: nat) | Done

  /** A thread's place at the start of _thread_task.  `Lost` is a read of the freed block. */
  datatype ThreadPc =
    | Absent
    | ReadState
    | ReadPool(cell: nat)
    | ReadSemaphore(cell: nat)
    | Post(cell: nat)
    | Working(cell: nat)
    | Lost

  /** `args` is the state cell the block points to, or None before it is written and after it
    * is freed. */
  datatype State = State(main: MainPc, args: Option<nat>, sem: nat, threads: seq<ThreadPc>)

  datatype Actor = Main | Thread(w: nat)

  function Initial(n: nat): State {
    State(Prepare(0), None, 0, seq(n, _ => Absent))
  }

  function MainNext(s: State): Option<State> {
    match s.main
    case Prepare(i) =>
      if i < |s.threads| then Some(s.(args := Some(i), main := Spawn(i)))
      else Some(s.(args := None, main := Done))
    case Spawn(i) =>
      if i < |s.threads| then Some(s.(threads := s.threads[i := ReadState], main := Await(i))) else None
    case Await(i) =>
      if s.sem > 0 then Some(s.(sem := s.sem - 1, main := Prepare(i + 1))) else None
    case Done => None
  }

  function ThreadNext(s: State, w: nat): Option<State>
    requires w < |s.threads|
  {
    match s.threads[w]
    case ReadState => Some(s.(threads := s.threads[w := if s.args.Some? then ReadPool(s.args.value) else Lost]))
    case ReadPool(cell) => Some(s.(threads := s.threads[w := if s.args.Some? then ReadSemaphore(cell) else Lost]))
    case ReadSemaphore(cell) => Some(s.(threads := s.threads[w := if s.args.Some? then Post(cell) else Lost]))
    case Post(cell) => Some(s.(threads := s.threads[w := Working(cell)], sem := s.sem + 1))
    case _ => None
  }

  function Next(s: State, a: Actor): Option<State> {
    match a
    case Main => MainNext(s)
    case Thread(w) => if w < |s.threads| then ThreadNext(s, w) else None
  }

  /** The states after some run, one actor at a time. */
  ghost predicate Reaches(s: State, run: seq<Actor>, t: State)
    decreases |run|
  {
    if run == [] then s == t
    else Next(s, run[0]).Some? && Reaches(Next(s, run[0]).value, run[1..], t)
  }

  // ------------------------------------------------------------------- the invariant

  /** Threads below `i` work on their own cells, and those from `k` on do not exist. */
  ghost predicate Settled(s: State, i: nat, k: nat) {
    forall w :: 0 <= w < |s.threads| ==>
      (w < i ==> s.threads[w] == Working(w)) && (w >= k ==> s.threads[w] == Absent)
  }

  ghost predicate Starting(t: ThreadPc, w: nat, sem: nat) {
    match t
    case ReadState => sem == 0
    case ReadPool(cell) => cell == w && sem == 0
    case ReadSemaphore(cell) => cell == w && sem == 0
    case Post(cell) => cell == w && sem == 0
    case Working(cell) => cell == w && sem == 1
    case _ => false
  }

  ghost predicate Inv(s: State) {
    match s.main
    case Prepare(i) => i <= |s.threads| && s.sem == 0 && Settled(s, i, i)
    case Spawn(i) => i < |s.threads| && s.sem == 0 && s.args == Some(i) && Settled(s, i, i)
    case Await(i) => i < |s.threads| && s.args == Some(i) && Settled(s, i, i + 1) && Starting(s.threads[i], i, s.sem)
    case Done => s.args == None && s.sem == 0 && Settled(s, |s.threads|, |s.threads|)
  }

  lemma InvIsKept(s: State, a: Actor)
    requires Inv(s) && Next(s, a).Some?
    ensures Inv(Next(s, a).value) && |Next(s, a).value.threads| == |s.threads|
  {
  }

  lemma {:induction false} RunsKeepInv(s: State, run: seq<Actor>, t: State)
    requires Inv(s) && Reaches(s, run, t)
    ensures Inv(t) && |t.threads| == |s.threads|
    decreases |run|
  {
    if run != [] {
      InvIsKept(s, run[0]);
      RunsKeepInv(Next(s, run[0]).value, run[1..], t);
    }
  }

  /** On every run each thread takes its own state cell, no thread reads the block after it is
    * freed, and no two threads share a cell. */
  lemma EveryThreadTakesItsOwnCell(n: nat, run: seq<Actor>, t: State, w: nat)
    requires Reaches(Initial(n), run, t) && w < n
    ensures |t.threads| == n && t.threads[w] != Lost
    ensures !t.threads[w].Absent? && !t.threads[w].ReadState? ==> t.threads[w].cell == w
  {
    RunsKeepInv(Initial(n), run, t);
  }

  /** The block is rewritten or freed only when every thread that exists has read it. */
  lemma RewrittenOnlyWhenRead(n: nat, run: seq<Actor>, t: State, w: nat)
    requires Reaches(Initial(n), run, t) && t.main.Prepare? && w < n
    ensures |t.threads| == n && (t.threads[w] == Absent || t.threads[w] == Working(w))
  {
    RunsKeepInv(Initial(n), run, t);
  }

  // ---------------------------------------------------------------------- progress

  function MainLeft(m: MainPc, n: nat): int {
    match m
    case Prepare(i) => 3 * (n - i) + 1
    case Spawn(i) => 3 * (n - i)
    case Await(i) => 3 * (n - i) - 1
    case Done => 0
  }

  function ThreadLeft(t: ThreadPc): nat {
    match t
    case Absent => 5
    case ReadState => 4
    case ReadPool(_) => 3
    case ReadSemaphore(_) => 2
    case Post(_) => 1
    case _ => 0
  }

  function ThreadsLeft(threads: seq<ThreadPc>): nat {
    if threads == [] then 0 else ThreadLeft(threads[0]) + ThreadsLeft(threads[1..])
  }

  /** The steps that are left. */
  function Left(s: State): int {
    MainLeft(s.main, |s.threads|) + ThreadsLeft(s.threads)
  }

  lemma {:induction false} ThreadsLeftUpdate(threads: seq<ThreadPc>, w: nat, t: ThreadPc)
    requires w < |threads|
    ensures ThreadsLeft(threads[w := t]) == ThreadsLeft(threads) - ThreadLeft(threads[w]) + ThreadLeft(t)
  {
    if w == 0 {
      assert threads[w := t][1..] == threads[1..];
    } else {
      assert threads[w := t][1..] == threads[1..][w - 1 := t];
      ThreadsLeftUpdate(threads[1..], w - 1, t);
    }
  }

  lemma StepsCount(s: State, a: Actor)
    requires Inv(s) && Next(s, a).Some?
    ensures 0 <= Left(Next(s, a).value) < Left(s)
  {
    InvIsKept(s, a);
    match a {
      case Main =>
        if s.main.Spawn? {
          ThreadsLeftUpdate(s.threads, s.main.i, ReadState);
        }
      case Thread(w) =>
        ThreadsLeftUpdate(s.threads, w, Next(s, a).value.threads[w]);
    }
  }

  /** Until the main thread is done some step is possible: the handshake never blocks. */
  lemma NeverStuck(s: State)
    requires Inv(s) && s.main != Done
    ensures exists a :: Next(s, a).Some?
  {
    if s.main.Await? && s.sem == 0 {
      assert Next(s, Thread(s.main.i)).Some?;
    } else {
      assert Next(s, Main).Some?;
    }
  }

  /** No run is longer than the steps that are left at its start. */
  lemma {:induction false} RunsEnd(s: State, run: seq<Actor>, t: State)
    requires Inv(s) && Reaches(s, run, t)
    ensures |run| <= Left(s)
    ensures (forall a :: Next(t, a) == None) ==>
              t.main == Done && t.args == None && forall w :: 0 <= w < |t.threads| ==> t.threads[w] == Working(w)
    decreases |run|
  {
    if run != [] {
      StepsCount(s, run[0]);
      InvIsKept(s, run[0]);
      RunsEnd(Next(s, run[0]).value, run[1..], t);
    } else {
      LeftIsNatural(s);
      if s.main != Done {
        NeverStuck(s);
      }
    }
  }

  lemma LeftIsNatural(s: State)
    requires Inv(s)
    ensures 0 <= Left(s)
  {
  }

  lemma {:induction false} AbsentLeft(n: nat)
    ensures ThreadsLeft(seq(n, _ => Absent)) == 5 * n
  {
    if n > 0 {
      assert seq<ThreadPc>(n, _ => Absent)[1..] == seq(n - 1, _ => Absent);
      AbsentLeft(n - 1);
    }
  }

  /** thread_pool_init returns: no run is longer than 8n + 1 steps, and where no step is left the
    * block is freed and every thread works on its own cell. */
  lemma InitReturns(n: nat, run: seq<Actor>, t: State)
    requires Reaches(Initial(n), run, t)
    ensures |run| <= 8 * n + 1
    ensures (forall a :: Next(t, a) == None) ==>
              t.main == Done && t.args == None && |t.threads| == n && forall w :: 0 <= w < n ==> t.threads[w] == Working(w)
  {
    AbsentLeft(n);
    RunsEnd(Initial(n), run, t);
    RunsKeepInv(Initial(n), run, t);
  }
}
