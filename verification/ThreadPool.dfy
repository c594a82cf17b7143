/** A thread pool with its linked queue and state cells, and the critical sections of
  * thread_pool.c in place.  The transition system of the server uses the functions of
  * module Pool that these methods are proved to compute.
  */
module ThreadPool {
  import opened Options
  import P = Pool
  import Q = FifoQueue

  class Pool<T> {
    var availableWork: int
    var busyThreads: int
    var sem: nat               // the value of pool_sem
    const queue: Q.Queue<T>
    const cells: array<P.ThreadState>

    ghost predicate Valid()
      reads this, cells, queue, queue.nodes
    {
      queue.Valid()
    }

    ghost function View(): P.PoolState<T>
      reads this, cells, queue, queue.nodes
      requires Valid()
    {
      P.PoolState(queue.Contents(), availableWork, busyThreads, cells[..])
    }

    /** thread_pool_init with a static size. */
    constructor (threads: nat)
      ensures Valid() && View() == P.Fresh(threads)
      ensures fresh(cells) && fresh(queue) && queue.nodes == [] && sem == 0
    {
      availableWork, busyThreads, sem := 0, 0, 0;
      queue := new Q.Queue();
      cells := new P.ThreadState[threads](_ => P.Free);
      new;
      assert cells[..] == P.Fresh<T>(threads).cells;
    }

    method AddWork(task: T)
      requires Valid()
      modifies this, queue, queue.nodes
      ensures Valid()
      ensures |queue.nodes| == |old(queue.nodes)| + 1 && queue.nodes[..|old(queue.nodes)|] == old(queue.nodes)
      ensures fresh(queue.nodes[|old(queue.nodes)|])
      ensures View() == P.AddWork(old(View()), task) && sem == old(sem) + 1
    {
      var _ := queue.PushLast(task);
      availableWork := availableWork + 1;
      sem := sem + 1;
    }

    /** Worker `w`'s section after it is woken. */
    method Enter(w: nat) returns (entry: P.Entry<T>)
      requires Valid() && w < cells.Length
      modifies this, cells, queue, queue.nodes
      ensures Valid() && queue.nodes == old(queue.nodes)
      ensures View() == P.Enter(old(View()), w).0
      ensures entry == P.Enter(old(View()), w).1 && sem == old(sem)
    {
      hide queue.Valid, queue.Contents;
      ghost var before := View();
      if cells[w] == P.Terminated {
        return P.Exit;
      }
      if availableWork > 0 {
        var _, task := queue.PopFirst();
        ghost var tasks := queue.Contents();
        assert tasks == if before.queue == [] then [] else before.queue[1..];
        availableWork := availableWork - 1;
        busyThreads := busyThreads + 1;
        cells[w] := P.Busy;
        entry := P.Work(task);
      } else {
        entry := P.NoWork;
      }
    }

    /** Worker `w`'s section after its task. */
    method Finish(w: nat) returns (exit: bool)
      requires Valid() && w < cells.Length
      modifies this, cells
      ensures Valid()
      ensures (View(), exit) == P.Finish(old(View()), w) && sem == old(sem)
    {
      if cells[w] == P.Terminated {
        return true;
      }
      busyThreads := busyThreads - 1;
      cells[w] := P.Free;
      exit := false;
    }

    /** The locked loop of thread_pool_destroy. */
    method TerminateAll()
      requires Valid()
      modifies cells
      ensures Valid()
      ensures View() == P.TerminateFrom(old(View()), 0)
      ensures forall w :: 0 <= w < cells.Length ==> cells[w] == P.Terminated
    {
      hide queue.Valid, queue.Contents;
      var i := 0;
      while i < cells.Length
        invariant 0 <= i <= cells.Length && Valid()
        invariant P.TerminateFrom(View(), i) == P.TerminateFrom(old(View()), 0)
        invariant forall w :: 0 <= w < i ==> cells[w] == P.Terminated
      {
        ghost var before := View();
        cells[i] := P.Terminated;
        assert View() == P.Terminate(before, i);
        i := i + 1;
      }
    }

    /** The loop of thread_pool_destroy that wakes every worker. */
    method PostAll()
      requires Valid()
      modifies this`sem
      ensures sem == old(sem) + cells.Length
      ensures Valid() && View() == old(View())
    {
      for i := 0 to cells.Length
        invariant sem == old(sem) + i
        invariant Valid() && View() == old(View())
      {
        sem := sem + 1;
      }
    }
  }
}
