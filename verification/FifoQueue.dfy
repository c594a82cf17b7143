/** The doubly linked queue of a thread pool (fifo_queue.c).  A node's `prev` is the node
  * behind it in the queue, its `next` the node in front of it.
  */
module FifoQueue {
  import opened Options

  const OK := 0
  const EMPTY_QUEUE := 2

  class Node<T> {
    const task: T
    var next: Node?<T>
    var prev: Node?<T>

    constructor (task: T)
      ensures this.task == task && next == null && prev == null
    {
      this.task := task;
      next, prev := null, null;
    }
  }

  /** The tasks of nodes. */
  ghost function Tasks<T>(nodes: seq<Node<T>>): (t: seq<T>)
    ensures |t| == |nodes| && forall i :: 0 <= i < |t| ==> t[i] == nodes[i].task
  {
    seq(|nodes|, i requires 0 <= i < |nodes| => nodes[i].task)
  }

  class Queue<T> {
    var size: int
    var first: Node?<T>
    var last: Node?<T>
    ghost var nodes: seq<Node<T>>   // the node of each push so far
    ghost var head: nat             // how many of them are popped

    /** The queued nodes are linked in the order of their pushes, with mirrored links and the
      * right ends; `size` counts them. */
    ghost predicate Valid()
      reads this, nodes
      ensures Valid() ==> head <= |nodes|
    {
      && head <= |nodes|
      && size == |nodes| - head
      && (size > 0 ==> first == nodes[head] && last == nodes[|nodes| - 1])
      && (size == 0 ==> first == null && last == null)
      && (forall i {:trigger nodes[i].next} :: head <= i < |nodes| ==> nodes[i].next == if i == head then null else nodes[i - 1])
      && (forall i {:trigger nodes[i].prev} :: head <= i < |nodes| ==> nodes[i].prev == if i == |nodes| - 1 then null else nodes[i + 1])
      && (forall i, j :: head <= i < j < |nodes| ==> nodes[i] != nodes[j])
    }

    ghost function Pushed(): seq<T>
      reads this
    {
      Tasks(nodes)
    }

    ghost function Popped(): seq<T>
      reads this
      requires head <= |nodes|
    {
      Tasks(nodes)[..head]
    }

    ghost function Contents(): seq<T>
      reads this
      requires head <= |nodes|
    {
      Tasks(nodes)[head..]
    }

    constructor ()
      ensures Valid() && nodes == []
    {
      size, first, last := 0, null, null;
      nodes, head := [], 0;
    }

    method PushLast(task: T) returns (code: int)
      requires Valid()
      modifies this, nodes
      ensures Valid() && code == OK
      ensures |nodes| == |old(nodes)| + 1 && nodes[..|old(nodes)|] == old(nodes) && fresh(nodes[|old(nodes)|])
      ensures Contents() == old(Contents()) + [task]
      ensures Pushed() == old(Pushed()) + [task] && Popped() == old(Popped())
    {
      hide Tasks;
      ghost var was := Tasks(nodes);
      var node := new Node(task);
      if size == 0 {
        first := node;
        last := node;
      } else {
        last.prev := node;
        node.next := last;
        last := node;
      }
      size := size + 1;
      nodes := nodes + [node];
      assert Tasks(nodes) == was + [task];
      code := OK;
    }

    method PopFirst() returns (code: int, task: Option<T>)
      requires Valid()
      modifies this, nodes
      ensures Valid() && nodes == old(nodes)
      ensures Pushed() == old(Pushed())
      ensures old(Contents()) == [] ==>
                code == EMPTY_QUEUE && task == None && Contents() == [] && Popped() == old(Popped())
      ensures old(Contents()) != [] ==>
                && code == OK && task == Some(old(Contents())[0])
                && Contents() == old(Contents())[1..] && Popped() == old(Popped()) + [old(Contents())[0]]
    {
      if size == 0 || first == null {
        return EMPTY_QUEUE, None;
      }
      task := Some(first.task);
      first := first.prev;
      size := size - 1;
      head := head + 1;
      if size == 0 {
        last := null;
      }
      if size != 0 {
        first.next := null;
      }
      code := OK;
    }

    /** Any calls, one after the other, and the tasks that the pops returned. */
    method Run(calls: seq<Call<T>>) returns (popped: seq<T>)
      requires Valid()
      modifies this, nodes
      ensures Valid()
      ensures (Contents(), popped) == AfterCalls(old(Contents()), calls)
      ensures popped + Contents() == old(Contents()) + Tasked(calls)
    {
      hide Valid, Contents, AfterCalls, Tasked;
      ghost var before := Contents();
      ghost var had := nodes;
      NoCalls(before);
      assert calls[..0] == [];
      popped := [];
      for i := 0 to |calls|
        invariant Valid() && |had| <= |nodes| && nodes[..|had|] == had
        invariant forall k :: |had| <= k < |nodes| ==> fresh(nodes[k])
        invariant (Contents(), popped) == AfterCalls(before, calls[..i])
      {
        assert calls[..i + 1] == calls[..i] + [calls[i]];
        LastCall(before, calls[..i], calls[i]);
        match calls[i]
        case Push(task) =>
          var _ := PushLast(task);
        case Pop =>
          var _, task := PopFirst();
          if task.Some? {
            popped := popped + [task.value];
          }
      }
      assert calls[..|calls|] == calls;
      FirstInFirstOut(before, calls);
    }
  }

  // ----------------------------------------------------------------- runs of calls

  datatype Call<+T> = Push(task: T) | Pop

  /** The tasks pushed by some calls, in order. */
  function Tasked<T>(calls: seq<Call<T>>): seq<T> {
    if calls == [] then []
    else (match calls[0] case Push(task) => [task] case Pop => []) + Tasked(calls[1..])
  }

  /** What a queue holds after some calls, and what its pops returned; popping an empty queue
    * returns nothing. */
  function AfterCalls<T>(contents: seq<T>, calls: seq<Call<T>>): (seq<T>, seq<T>)
    decreases |calls|
  {
    if calls == [] then (contents, [])
    else
      match calls[0]
      case Push(task) => AfterCalls(contents + [task], calls[1..])
      case Pop =>
        if contents == [] then AfterCalls(contents, calls[1..])
        else
          var (left, popped) := AfterCalls(contents[1..], calls[1..]);
          (left, [contents[0]] + popped)
  }

  /** First in, first out, on any calls: the tasks popped, followed by those still queued, are the
    * tasks there were, followed by those pushed, in order. */
  lemma {:induction false} FirstInFirstOut<T>(contents: seq<T>, calls: seq<Call<T>>)
    ensures var (left, popped) := AfterCalls(contents, calls); popped + left == contents + Tasked(calls)
    decreases |calls|
  {
    if calls != [] {
      match calls[0]
      case Push(task) =>
        FirstInFirstOut(contents + [task], calls[1..]);
        assert contents + ([task] + Tasked(calls[1..])) == contents + [task] + Tasked(calls[1..]);
      case Pop =>
        assert [] + Tasked(calls[1..]) == Tasked(calls[1..]);
        if contents == [] {
          FirstInFirstOut(contents, calls[1..]);
        } else {
          FirstInFirstOut(contents[1..], calls[1..]);
          var (left, popped) := AfterCalls(contents[1..], calls[1..]);
          assert [contents[0]] + popped + left == [contents[0]] + (popped + left);
          assert contents + Tasked(calls[1..]) == [contents[0]] + (contents[1..] + Tasked(calls[1..]));
        }
    }
  }

  lemma NoCalls<T>(contents: seq<T>)
    ensures AfterCalls(contents, []) == (contents, [])
  {
  }

  /** One more call. */
  lemma {:induction false} LastCall<T>(contents: seq<T>, calls: seq<Call<T>>, call: Call<T>)
    ensures var (left, popped) := AfterCalls(contents, calls);
            AfterCalls(contents, calls + [call]) ==
              match call
              case Push(task) => (left + [task], popped)
              case Pop => if left == [] then (left, popped) else (left[1..], popped + [left[0]])
    decreases |calls|
  {
    if calls == [] {
      assert calls + [call] == [call] && [call][1..] == [];
      assert contents != [] ==> [contents[0]] + [] == [] + [contents[0]];
    } else {
      assert (calls + [call])[1..] == calls[1..] + [call];
      match calls[0]
      case Push(task) => LastCall(contents + [task], calls[1..], call);
      case Pop =>
        if contents == [] {
          LastCall(contents, calls[1..], call);
        } else {
          LastCall(contents[1..], calls[1..], call);
          var (left, popped) := AfterCalls(contents[1..], calls[1..]);
          assert left != [] ==> [contents[0]] + (popped + [left[0]]) == [contents[0]] + popped + [left[0]];
        }
    }
  }
}
