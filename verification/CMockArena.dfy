/** The arena of the vendored CMock (cmock.c): blocks carved from one static buffer and chained
  * through link words stored in front of them.  Indices are 64-bit (size_t), the alignment is 8
  * and the buffer is not dynamic.
  */
module CMockArena {
  const WORD: int := 0x1_0000_0000_0000_0000
  const ALIGN_SIZE: int := 8
  const INDEX_SIZE: int := 8
  const BUFFER_SIZE: int := 32768 + ALIGN_SIZE
  const NONE: nat := 0

  type Byte = x: int | 0 <= x < 256
  type Index = x: int | 0 <= x < WORD

  // ------------------------------------------------------------- words in the memory

  function Bytes(v: nat, n: nat): (b: seq<Byte>)
    ensures |b| == n
  {
    if n == 0 then [] else [v % 256] + Bytes(v / 256, n - 1)
  }

  function Value(b: seq<Byte>): nat {
    if b == [] then 0 else b[0] + 256 * Value(b[1..])
  }

  function Power256(n: nat): nat {
    if n == 0 then 1 else 256 * Power256(n - 1)
  }

  lemma {:induction false} ValueOfBytes(v: nat, n: nat)
    requires v < Power256(n)
    ensures Value(Bytes(v, n)) == v
  {
    if n > 0 {
      assert v / 256 < Power256(n - 1);
      ValueOfBytes(v / 256, n - 1);
      assert Bytes(v, n)[1..] == Bytes(v / 256, n - 1);
    }
  }

  lemma WordHasEightBytes()
    ensures Power256(8) == WORD
  {
    assert Power256(4) == 0x1_0000_0000;
  }

  /** The word stored at an address. */
  function Load(memory: seq<Byte>, at: nat): nat
    requires at + 8 <= |memory|
  {
    Value(memory[at..at + 8])
  }

  method Store(memory: array<Byte>, at: nat, v: Index)
    requires at + 8 <= memory.Length
    modifies memory
    ensures Load(memory[..], at) == v
    ensures memory[..at] == old(memory[..at]) && memory[at + 8..] == old(memory[at + 8..])
  {
    var bytes := Bytes(v, 8);
    var k := 0;
    while k < 8
      invariant 0 <= k <= 8
      invariant memory[..at] == old(memory[..at]) && memory[at + 8..] == old(memory[at + 8..])
      invariant memory[at..at + k] == bytes[..k]
    {
      memory[at + k] := bytes[k];
      k := k + 1;
    }
    WordHasEightBytes();
    ValueOfBytes(v, 8);
    assert memory[..][at..at + 8] == bytes;
  }

  // -------------------------------------------------------------------------- chains

  /** Every link leads forward to another block, or is NONE. */
  ghost predicate Forward(next: map<nat, nat>, free: nat) {
    forall i :: i in next ==> 0 < i < free && (next[i] == NONE || (i < next[i] && next[i] in next))
  }

  ghost predicate Known(next: map<nat, nat>, i: nat) {
    i == NONE || i in next
  }

  /** The blocks on the chain that starts at a block. */
  ghost function Chain(next: map<nat, nat>, free: nat, i: nat): (c: seq<nat>)
    requires Forward(next, free) && Known(next, i)
    ensures c == [] <==> i == NONE
    ensures forall k :: 0 <= k < |c| ==> c[k] in next && i <= c[k]
    decreases if i == NONE then 0 else free - i
  {
    if i == NONE then [] else [i] + Chain(next, free, next[i])
  }

  ghost function End(next: map<nat, nat>, free: nat, i: nat): nat
    requires Forward(next, free) && Known(next, i) && i != NONE
  {
    var c := Chain(next, free, i);
    c[|c| - 1]
  }

  /** Linking a new block behind the end of a chain appends it to the chains with that end, and
    * leaves every other chain alone. */
  lemma {:induction false} LinkAppends(next: map<nat, nat>, free: nat, last: nat, obj: nat, i: nat)
    requires Forward(next, free) && last in next && next[last] == NONE && obj in next && next[obj] == NONE && last < obj
    requires i in next
    ensures Forward(next[last := obj], free)
    ensures Chain(next[last := obj], free, i) ==
              Chain(next, free, i) + if End(next, free, i) == last then [obj] else []
    ensures End(next[last := obj], free, i) == if End(next, free, i) == last then obj else End(next, free, i)
    decreases free - i
  {
    var after := next[last := obj];
    if i == last {
      assert Chain(next, free, i) == [i] + [] && Chain(after, free, obj) == [obj] + [];
    } else if next[i] != NONE {
      LinkAppends(next, free, last, obj, next[i]);
    }
  }

  /** A block that is added without links joins no chain. */
  lemma {:induction false} NewBlockJoinsNone(next: map<nat, nat>, free: nat, obj: nat, more: nat, i: nat)
    requires Forward(next, free) && Known(next, i) && 0 < obj && free <= obj < more
    ensures Forward(next[obj := NONE], more)
    ensures Chain(next[obj := NONE], more, i) == Chain(next, free, i)
    ensures Chain(next[obj := NONE], more, obj) == [obj]
    decreases if i == NONE then 0 else free - i
  {
    if i != NONE {
      NewBlockJoinsNone(next, free, obj, more, next[i]);
    }
  }

  lemma {:induction false} EndHasNoNext(next: map<nat, nat>, free: nat, i: nat)
    requires Forward(next, free) && i in next
    ensures End(next, free, i) in next && next[End(next, free, i)] == NONE
    ensures next[i] != NONE ==> End(next, free, next[i]) == End(next, free, i)
    ensures next[i] == NONE ==> End(next, free, i) == i
    decreases free - i
  {
    if next[i] != NONE {
      EndHasNoNext(next, free, next[i]);
    }
  }

  // ------------------------------------------------------------------------ the sizes

  /** The bytes MemNew takes for a block, in 64-bit arithmetic. */
  function Rounded(size: Index): (r: Index)
    ensures r % 8 == 0
  {
    var s := (size + INDEX_SIZE) % 0x1_0000_0000_0000_0000;
    if s % 8 != 0 then (s + 7) % 0x1_0000_0000_0000_0000 / 8 * 8 else s
  }

  /** The block holds its link word and `size` bytes exactly for the sizes that do not wrap. */
  lemma RoundedIsEnough(size: Index)
    ensures INDEX_SIZE + size <= Rounded(size) <==> size <= WORD - 16
    ensures size <= WORD - 16 ==> Rounded(size) < INDEX_SIZE + size + ALIGN_SIZE
    ensures size > WORD - 16 ==> Rounded(size) == if size <= WORD - 8 then 0 else 8
  {
  }

  /** The bytes of a block behind its link word. */
  function Room(size: Index): (r: nat)
    requires size <= WORD - 16
    ensures r == Rounded(size) - INDEX_SIZE && size <= r
  {
    RoundedIsEnough(size);
    Rounded(size) - INDEX_SIZE
  }

  // ------------------------------------------------------------------------ the arena

  lemma LoadFrame(b: seq<Byte>, c: seq<Byte>, at: nat, lo: nat, hi: nat)
    requires |b| == |c| && lo <= hi <= |b| && b[..lo] == c[..lo] && b[hi..] == c[hi..]
    requires at + 8 <= |b| && (at + 8 <= lo || hi <= at)
    ensures Load(b, at) == Load(c, at)
  {
    if at + 8 <= lo {
      assert b[at..at + 8] == b[..lo][at..at + 8] && c[at..at + 8] == c[..lo][at..at + 8];
    } else {
      assert b[at..at + 8] == b[hi..][at - hi..at - hi + 8] && c[at..at + 8] == c[hi..][at - hi..at - hi + 8];
    }
  }

  /** Every block's link word is in the memory, and blocks with their link words are disjoint,
    * aligned and below the free pointer. */
  ghost predicate Blocks(memory: seq<Byte>, next: map<nat, nat>, room: map<nat, nat>, free: nat) {
    && |memory| == BUFFER_SIZE && ALIGN_SIZE <= free <= BUFFER_SIZE && free % ALIGN_SIZE == 0
    && room.Keys == next.Keys
    && (forall i :: i in next ==> INDEX_SIZE + ALIGN_SIZE <= i && i % ALIGN_SIZE == 0 && i + room[i] <= free)
    && (forall i :: i in next ==> Load(memory, i - INDEX_SIZE) == next[i])
    && (forall i, j :: i in next && j in next && i < j ==> i + room[i] <= j - INDEX_SIZE)
  }

  /** Writing inside a block, or behind all of them, changes no link word. */
  lemma BlocksFrame(b: seq<Byte>, c: seq<Byte>, next: map<nat, nat>, room: map<nat, nat>, free: nat, lo: nat, hi: nat)
    requires Blocks(b, next, room, free)
    requires |b| == |c| && lo <= hi <= |b| && b[..lo] == c[..lo] && b[hi..] == c[hi..]
    requires free <= lo || exists i :: i in next && i <= lo && hi <= i + room[i]
    ensures Blocks(c, next, room, free)
  {
    hide Load;
    forall i | i in next
      ensures Load(c, i - INDEX_SIZE) == next[i]
    {
      LoadFrame(b, c, i - INDEX_SIZE, lo, hi);
    }
  }

  /** What the blocks say about one of them. */
  lemma BlocksBounds(b: seq<Byte>, next: map<nat, nat>, room: map<nat, nat>, free: nat, i: nat)
    requires Blocks(b, next, room, free) && i in next
    ensures INDEX_SIZE + ALIGN_SIZE <= i <= free <= |b| && Load(b, i - INDEX_SIZE) == next[i]
    ensures i in room && free <= BUFFER_SIZE
  {
  }

  lemma BlocksHaveFree(b: seq<Byte>, next: map<nat, nat>, room: map<nat, nat>, free: nat)
    requires Blocks(b, next, room, free)
    ensures |b| == BUFFER_SIZE && ALIGN_SIZE <= free <= BUFFER_SIZE && free % ALIGN_SIZE == 0
  {
  }

  lemma BlockIsAddress(b: seq<Byte>, next: map<nat, nat>, room: map<nat, nat>, free: nat, i: nat)
    requires Blocks(b, next, room, free) && Forward(next, free) && i in next
    ensures ALIGN_SIZE <= i < free
  {
  }

  lemma BlocksRoom(b: seq<Byte>, next: map<nat, nat>, room: map<nat, nat>, free: nat, i: nat)
    requires Blocks(b, next, room, free) && i in next
    ensures i in room && i + room[i] <= free <= |b|
  {
  }

  lemma BlocksLink(b: seq<Byte>, c: seq<Byte>, next: map<nat, nat>, room: map<nat, nat>, free: nat, last: nat, obj: nat)
    requires Blocks(b, next, room, free) && last in next
    requires |b| == |c| && b[..last - INDEX_SIZE] == c[..last - INDEX_SIZE] && b[last..] == c[last..]
    requires Load(c, last - INDEX_SIZE) == obj
    ensures Blocks(c, next[last := obj], room, free)
  {
    hide Load;
    forall i | i in next && i != last
      ensures Load(c, i - INDEX_SIZE) == next[i]
    {
      LoadFrame(b, c, i - INDEX_SIZE, last - INDEX_SIZE, last);
    }
  }

  lemma BlocksGrow(b: seq<Byte>, next: map<nat, nat>, room: map<nat, nat>, free: nat, taken: nat)
    requires Blocks(b, next, room, free) && free + taken <= BUFFER_SIZE && INDEX_SIZE <= taken && taken % ALIGN_SIZE == 0
    requires Load(b, free) == NONE
    ensures Blocks(b, next[free + INDEX_SIZE := NONE], room[free + INDEX_SIZE := taken - INDEX_SIZE], free + taken)
    ensures free + INDEX_SIZE !in next
  {
  }

  lemma ForwardGrows(next: map<nat, nat>, free: nat, obj: nat, more: nat)
    requires Forward(next, free) && 0 < obj && free <= obj < more
    ensures Forward(next[obj := NONE], more)
  {
  }

  lemma ForwardIff(next: map<nat, nat>, free: nat, last: nat, obj: nat)
    requires Forward(next, free) && last in next && obj in next
    ensures Forward(next[last := obj], free) <==> last < obj
  {
    var after := next[last := obj];
    assert last in after && after[last] == obj && 0 < obj;
  }

  lemma FreeRises(b: seq<Byte>, next: map<nat, nat>, room: map<nat, nat>, free: nat, taken: nat)
    requires Blocks(b, next, room, free) && Forward(next, free)
    requires free + taken <= BUFFER_SIZE && taken % ALIGN_SIZE == 0
    ensures Blocks(b, next, room, free + taken) && Forward(next, free + taken)
  {
  }

  class Arena {
    const buffer: array<Byte>
    var free: nat
    ghost var next: map<nat, nat>   // the link of every block
    ghost var room: map<nat, nat>   // the bytes of every block

    ghost predicate Valid()
      reads this, buffer
    {
      && Blocks(buffer[..], next, room, free)
      && Forward(next, free)
    }

    /** The indices for which CMock_Guts_GetAddressFor returns an address. */
    predicate IsAddress(index: nat)
      reads this
    {
      ALIGN_SIZE <= index < free
    }

    constructor ()
      ensures Valid() && next == map[] && fresh(buffer)
    {
      buffer := new Byte[BUFFER_SIZE](_ => 0);
      free := ALIGN_SIZE;
      next, room := map[], map[];
    }

    /** CMock_Guts_MemNew.  For the 15 greatest sizes the computation wraps and the index returned
      * is not below the free pointer, so it is no address; where a block of no bytes is asked
      * for so at the end of the buffer, the source would write behind it. */
    method MemNew(size: Index) returns (index: nat)
      requires Valid() && (WORD - 15 <= size <= WORD - 8 ==> free < BUFFER_SIZE)
      modifies this, buffer
      ensures Valid()
      ensures index == NONE <==> size < 1 || BUFFER_SIZE - old(free) < Rounded(size)
      ensures index == NONE ==>
                free == old(free) && next == old(next) && room == old(room) && buffer[..] == old(buffer[..])
      ensures index != NONE ==> index == old(free) + INDEX_SIZE
      ensures index != NONE && size <= WORD - 16 ==>
                && index !in old(next)
                && next == old(next)[index := NONE] && room == old(room)[index := Room(size)]
                && size <= room[index] && index + room[index] == free
      ensures index != NONE && size > WORD - 16 ==>
                next == old(next) && room == old(room) && old(free) <= free <= index
    {
      hide Load, Blocks, Rounded, Room, Forward;
      if size < 1 {
        return NONE;
      }
      RoundedIsEnough(size);
      BlocksHaveFree(buffer[..], next, room, free);
      var taken := Rounded(size);
      if BUFFER_SIZE - free < taken {
        return NONE;
      }
      index := free + INDEX_SIZE;
      ghost var before := buffer[..];
      Store(buffer, free, NONE);
      BlocksFrame(before, buffer[..], next, room, free, free, free + 8);
      if size <= WORD - 16 {
        BlocksGrow(buffer[..], next, room, free, taken);
        ForwardGrows(next, free, index, free + taken);
        next, room := next[index := NONE], room[index := taken - INDEX_SIZE];
      } else {
        FreeRises(buffer[..], next, room, free, taken);
      }
      free := free + taken;
    }

    /** memset of an instance: the bytes of one block change, and no link does. */
    method MemSet(index: nat, value: Byte, count: nat)
      requires Valid() && index in next && count <= room[index]
      modifies buffer
      ensures Valid()
      ensures forall j :: index <= j < index + count ==> buffer[j] == value
      ensures buffer[..index] == old(buffer[..index]) && buffer[index + count..] == old(buffer[index + count..])
    {
      hide Blocks, Forward;
      ghost var before := buffer[..];
      BlocksRoom(before, next, room, free, index);
      var k := 0;
      while k < count
        invariant 0 <= k <= count
        invariant forall j :: index <= j < index + k ==> buffer[j] == value
        invariant buffer[..index] == before[..index] && buffer[index + count..] == before[index + count..]
      {
        buffer[index + k] := value;
        k := k + 1;
      }
      BlocksFrame(before, buffer[..], next, room, free, index, index + count);
    }

    /** CMock_Guts_MemNext: the rest of the chain. */
    method MemNext(previous: nat) returns (index: nat)
      requires Valid() && Known(next, previous)
      ensures Known(next, index)
      ensures index == if previous == NONE then NONE else next[previous]
      ensures previous != NONE ==> Chain(next, free, previous) == [previous] + Chain(next, free, index)
    {
      if previous < ALIGN_SIZE || previous >= free {
        return NONE;
      }
      index := Load(buffer[..], previous - INDEX_SIZE);
      if !(index > 1 && index < free) {
        index := NONE;
      }
    }

    /** CMock_Guts_MemEndOfChain */
    method MemEndOfChain(root: nat) returns (index: nat)
      requires Valid() && Known(next, root)
      ensures index == if root == NONE then NONE else End(next, free, root)
    {
      hide Blocks, Chain, End;
      index := root;
      var following := root;
      while following != NONE
        invariant Known(next, following) && Known(next, index)
        invariant root == NONE ==> index == NONE
        invariant following != NONE ==> root != NONE && End(next, free, following) == End(next, free, root)
        invariant following == NONE && root != NONE ==> index == End(next, free, root)
        decreases if following == NONE then 0 else free - following
      {
        index := following;
        EndHasNoNext(next, free, index);
        following := MemNext(index);
      }
    }

    /** CMock_Guts_MemChain, for indices that are blocks or no addresses at all.  A block linked
      * behind an older one keeps every link forward; any other does not. */
    method MemChain(root: nat, obj: nat) returns (r: nat)
      requires Valid()
      requires Known(next, root) || !IsAddress(root)
      requires root != NONE ==> obj in next || !IsAddress(obj)
      modifies buffer, this`next
      ensures root == NONE ==> r == obj && next == old(next) && Valid()
      ensures root != NONE && (!IsAddress(root) || !IsAddress(obj)) ==> r == NONE && next == old(next) && Valid()
      ensures root != NONE && IsAddress(root) && IsAddress(obj) ==>
                && r == root && next == old(next)[End(old(next), free, root) := obj]
                && Blocks(buffer[..], next, room, free)
                && (Valid() <==> End(old(next), free, root) < obj)
    {
      hide Blocks, Chain, End, Load;
      ghost var before := buffer[..];
      if root == NONE {
        return obj;
      }
      if root < ALIGN_SIZE || root >= free {
        return NONE;
      }
      if obj < ALIGN_SIZE || obj >= free {
        return NONE;
      }
      var last := root;
      var index: nat := 1;
      while index > 0
        invariant last in next && End(next, free, last) == End(next, free, root)
        invariant index == 0 ==> next[last] == NONE
        decreases index > 0, free - last
        modifies {}
      {
        assert buffer[..] == before;
        BlocksBounds(before, next, room, free, last);
        EndHasNoNext(next, free, last);
        index := Load(buffer[..], last - INDEX_SIZE);
        if index >= free {
          return NONE;
        }
        if index > 0 {
          last := index;
        }
      }
      assert buffer[..] == before;
      BlocksBounds(before, next, room, free, last);
      EndHasNoNext(next, free, last);
      assert last == End(old(next), free, root);
      Store(buffer, last - INDEX_SIZE, obj);
      BlocksLink(before, buffer[..], next, room, free, last, obj);
      ForwardIff(next, free, last, obj);
      next := next[last := obj];
      r := root;
    }

    /** CMock_Guts_MemFreeAll */
    method MemFreeAll()
      requires Valid()
      modifies this
      ensures Valid() && next == map[] && free == ALIGN_SIZE
    {
      free := ALIGN_SIZE;
      next, room := map[], map[];
    }
  }
}
