/** The shared fields of a thread pool and the critical sections that change them
  * (thread_pool.c).  Each function is one section between `pthread_mutex_lock` and
  * `pthread_mutex_unlock`.
  */
module Pool {
  import opened Options

  datatype ThreadState = Free | Busy | Terminated

  datatype PoolState<+T> = PoolState(queue: seq<T>, availableWork: int, busyThreads: int, cells: seq<ThreadState>)

  /** What a worker leaves its first section with. */
  datatype Entry<+T> = Exit | Work(task: Option<T>) | NoWork

  function Fresh<T>(n: nat): (p: PoolState<T>)
    ensures |p.cells| == n && forall i :: 0 <= i < n ==> p.cells[i] == Free
  {
    PoolState([], 0, 0, seq(n, _ => Free))
  }

  /** add_work */
  function AddWork<T>(p: PoolState<T>, task: T): PoolState<T> {
    p.(queue := p.queue + [task], availableWork := p.availableWork + 1)
  }

  /** The worker's first section: leave if terminated, else pop a task if there is work.
    * Popping an empty queue yields no task. */
  function Enter<T>(p: PoolState<T>, w: nat): (PoolState<T>, Entry<T>)
    requires w < |p.cells|
  {
    if p.cells[w] == Terminated then (p, Exit)
    else if p.availableWork > 0 then
      (PoolState(if p.queue == [] then [] else p.queue[1..],
                 p.availableWork - 1, p.busyThreads + 1, p.cells[w := Busy]),
       Work(if p.queue == [] then None else Some(p.queue[0])))
    else (p, NoWork)
  }

  /** The worker's second section: leave if terminated, else report to be free again. */
  function Finish<T>(p: PoolState<T>, w: nat): (PoolState<T>, bool)
    requires w < |p.cells|
  {
    if p.cells[w] == Terminated then (p, true)
    else (p.(busyThreads := p.busyThreads - 1, cells := p.cells[w := Free]), false)
  }

  /** One turn of the loop of thread_pool_destroy that terminates the workers. */
  function Terminate<T>(p: PoolState<T>, w: nat): PoolState<T>
    requires w < |p.cells|
  {
    p.(cells := p.cells[w := Terminated])
  }

  /** The rest of that loop, from worker `i` on. */
  function TerminateFrom<T>(p: PoolState<T>, i: nat): PoolState<T>
    decreases |p.cells| - i
  {
    if i >= |p.cells| then p else TerminateFrom(Terminate(p, i), i + 1)
  }
}
