/** The expected calls of several mocked functions, kept as chains in one arena: a mock appends
  * an instance for each expected call and takes one off at each call.
  */
module CMockQueues {
  import opened CMockArena

  /** The chain of each head is its queue, and the chains have different ends. */
  ghost predicate Queues(next: map<nat, nat>, free: nat, heads: seq<nat>, queues: seq<seq<nat>>)
    requires Forward(next, free)
  {
    && |heads| == |queues|
    && (forall p :: 0 <= p < |heads| ==> Known(next, heads[p]) && Chain(next, free, heads[p]) == queues[p])
    && (forall p, q :: 0 <= p < q < |heads| && heads[p] != NONE && heads[q] != NONE ==>
          End(next, free, heads[p]) != End(next, free, heads[q]))
  }

  lemma {:induction false} OnChainOfSameEnd(next: map<nat, nat>, free: nat, i: nat, k: nat)
    requires Forward(next, free) && i in next && k in Chain(next, free, i)
    ensures k in next && End(next, free, k) == End(next, free, i)
    decreases free - i
  {
    EndHasNoNext(next, free, i);
    if k != i {
      OnChainOfSameEnd(next, free, next[i], k);
    }
  }

  /** No block is on two queues. */
  lemma QueuesAreDisjoint(next: map<nat, nat>, free: nat, heads: seq<nat>, queues: seq<seq<nat>>, p: nat, q: nat, k: nat)
    requires Forward(next, free) && Queues(next, free, heads, queues)
    requires p < |queues| && q < |queues| && k in queues[p] && k in queues[q]
    ensures p == q
  {
    OnChainOfSameEnd(next, free, heads[p], k);
    OnChainOfSameEnd(next, free, heads[q], k);
  }

  lemma QueuesAfterNew(next: map<nat, nat>, free: nat, heads: seq<nat>, queues: seq<seq<nat>>, obj: nat, more: nat)
    requires Forward(next, free) && Queues(next, free, heads, queues) && 0 < obj && free <= obj < more
    ensures Forward(next[obj := NONE], more) && Queues(next[obj := NONE], more, heads, queues)
    ensures forall p :: 0 <= p < |queues| ==> obj !in queues[p]
    ensures forall i :: i in next ==> next[i] != obj
    ensures Chain(next[obj := NONE], more, obj) == [obj]
  {
    NewBlockJoinsNone(next, free, obj, more, NONE);
    forall p | 0 <= p < |heads|
      ensures Chain(next[obj := NONE], more, heads[p]) == queues[p] && obj !in queues[p]
    {
      NewBlockJoinsNone(next, free, obj, more, heads[p]);
    }
  }

  /** The links after MemChain. */
  ghost function Chained(next: map<nat, nat>, free: nat, root: nat, obj: nat): map<nat, nat>
    requires Forward(next, free) && Known(next, root)
  {
    if root == NONE then next else next[End(next, free, root) := obj]
  }

  lemma QueuesAfterChain(next: map<nat, nat>, free: nat, heads: seq<nat>, queues: seq<seq<nat>>, q: nat, obj: nat)
    requires Forward(next, free) && Queues(next, free, heads, queues) && q < |heads|
    requires obj in next && next[obj] == NONE && Chain(next, free, obj) == [obj]
    requires forall i :: i in next && i != obj ==> i < obj
    requires forall p :: 0 <= p < |queues| ==> obj !in queues[p]
    ensures Forward(Chained(next, free, heads[q], obj), free)
    ensures Queues(Chained(next, free, heads[q], obj), free,
                   heads[q := if heads[q] == NONE then obj else heads[q]], queues[q := queues[q] + [obj]])
  {
    hide Chain, End;
    if heads[q] == NONE {
      EndHasNoNext(next, free, obj);
      forall p | 0 <= p < |heads| && heads[p] != NONE
        ensures End(next, free, heads[p]) != obj
      {
        EndIsOnChain(next, free, heads[p]);
      }
    } else {
      var last := End(next, free, heads[q]);
      EndHasNoNext(next, free, heads[q]);
      EndIsOnChain(next, free, heads[q]);
      ChainedQueues(next, free, heads, queues, q, obj, last);
    }
  }

  lemma EndIsOnChain(next: map<nat, nat>, free: nat, i: nat)
    requires Forward(next, free) && i in next
    ensures End(next, free, i) in Chain(next, free, i)
  {
  }

  lemma ChainedQueues(next: map<nat, nat>, free: nat, heads: seq<nat>, queues: seq<seq<nat>>, q: nat, obj: nat, last: nat)
    requires Forward(next, free) && Queues(next, free, heads, queues) && q < |heads| && heads[q] != NONE
    requires last == End(next, free, heads[q]) && last in next && next[last] == NONE && last < obj
    requires obj in next && next[obj] == NONE
    requires forall p :: 0 <= p < |queues| ==> obj !in queues[p]
    ensures Forward(next[last := obj], free)
    ensures Queues(next[last := obj], free, heads, queues[q := queues[q] + [obj]])
  {
    hide Chain, End;
    LinkAppends(next, free, last, obj, heads[q]);
    var after, queues1 := next[last := obj], queues[q := queues[q] + [obj]];
    assert Chain(after, free, NONE) == [];
    forall p | 0 <= p < |heads| && heads[p] != NONE
      ensures Chain(after, free, heads[p]) == queues1[p]
      ensures End(after, free, heads[p]) == if p == q then obj else End(next, free, heads[p])
      ensures p != q ==> End(next, free, heads[p]) != obj
    {
      LinkAppends(next, free, last, obj, heads[p]);
      EndIsOnChain(next, free, heads[p]);
    }
  }

  lemma QueuesAfterNext(next: map<nat, nat>, free: nat, heads: seq<nat>, queues: seq<seq<nat>>, q: nat)
    requires Forward(next, free) && Queues(next, free, heads, queues) && q < |heads| && heads[q] != NONE
    ensures Queues(next, free, heads[q := next[heads[q]]], queues[q := queues[q][1..]])
  {
    EndHasNoNext(next, free, heads[q]);
  }

  lemma KnownHead(next: map<nat, nat>, free: nat, heads: seq<nat>, queues: seq<seq<nat>>, q: nat)
    requires Forward(next, free) && Queues(next, free, heads, queues) && q < |heads|
    ensures |heads| == |queues| && Known(next, heads[q])
    ensures queues[q] == [] <==> heads[q] == NONE
    ensures queues[q] != [] ==> queues[q][0] == heads[q]
  {
  }

  /** The newest block is behind all others, and nothing leads to it yet. */
  lemma NewestBlock(b: seq<Byte>, next: map<nat, nat>, room: map<nat, nat>, free: nat, obj: nat)
    requires Forward(next, free) && Blocks(b, next, room, free) && obj in next && obj + room[obj] == free
    ensures forall i :: i in next && i != obj ==> i < obj
  {
  }

  class Mocks {
    const arena: Arena
    var heads: seq<nat>               // the CallInstance of each mocked function
    ghost var queues: seq<seq<nat>>   // the instances it has yet to consume

    ghost predicate Valid()
      reads this, arena, arena.buffer
    {
      arena.Valid() && Queues(arena.next, arena.free, heads, queues)
    }

    constructor (functions: nat)
      ensures Valid() && queues == seq(functions, _ => [])
      ensures fresh(arena) && fresh(arena.buffer)
    {
      arena := new Arena();
      heads := seq(functions, _ => NONE);
      queues := seq(functions, _ => []);
    }

    /** An _CMockExpect function: a new instance joins the end of one queue. */
    method Expect(q: nat, size: Index) returns (instance: nat)
      requires Valid() && q < |heads| && size <= WORD - 16
      modifies this, arena, arena.buffer
      ensures Valid()
      ensures instance == NONE <==> size < 1 || BUFFER_SIZE - old(arena.free) < Rounded(size)
      ensures queues == if instance == NONE then old(queues) else old(queues)[q := old(queues[q]) + [instance]]
      ensures instance != NONE ==> instance !in old(arena.next)
    {
      hide Blocks, Chain, End, Forward, Queues, Rounded;
      ghost var next, free := arena.next, arena.free;
      KnownHead(arena.next, arena.free, heads, queues, q);
      instance := arena.MemNew(size);
      if instance == NONE {
        return;
      }
      arena.MemSet(instance, 0, size);
      QueuesAfterNew(next, free, heads, queues, instance, arena.free);
      NewestBlock(arena.buffer[..], arena.next, arena.room, arena.free, instance);
      QueuesAfterChain(arena.next, arena.free, heads, queues, q, instance);
      BlockIsAddress(arena.buffer[..], arena.next, arena.room, arena.free, instance);
      if heads[q] != NONE {
        BlockIsAddress(arena.buffer[..], arena.next, arena.room, arena.free, heads[q]);
      }
      var head := arena.MemChain(heads[q], instance);
      heads := heads[q := head];
      queues := queues[q := queues[q] + [instance]];
    }

    /** The mocked function: it takes the first instance of its queue, or none. */
    method Call(q: nat) returns (instance: nat)
      requires Valid() && q < |heads|
      modifies this
      ensures Valid()
      ensures instance == if old(queues[q]) == [] then NONE else old(queues[q])[0]
      ensures queues == if old(queues[q]) == [] then old(queues) else old(queues)[q := old(queues[q])[1..]]
    {
      hide Blocks, Chain, End, Forward, Queues;
      KnownHead(arena.next, arena.free, heads, queues, q);
      instance := heads[q];
      var rest := arena.MemNext(heads[q]);
      heads := heads[q := rest];
      if queues[q] == [] {
        assert heads == old(heads);
      } else {
        QueuesAfterNext(arena.next, arena.free, old(heads), queues, q);
        queues := queues[q := queues[q][1..]];
      }
    }
  }
}
