/** The generic singly linked list (LinkedList.c): walking, insertion and binary search. */
module LinkedList {
  import opened Options

  class Node<T> {
    const data: T
    var next: Node?<T>

    constructor (data: T)
      ensures this.data == data && next == null
    {
      this.data := data;
      next := null;
    }
  }

  ghost function Data<T>(nodes: seq<Node<T>>): (d: seq<T>)
    ensures |d| == |nodes| && forall i :: 0 <= i < |d| ==> d[i] == nodes[i].data
  {
    seq(|nodes|, i requires 0 <= i < |nodes| => nodes[i].data)
  }

  /** A comparison that returns 1, -1 or 0 and is a total order. */
  ghost predicate TotalOrder<T(!new)>(compare: (T, T) -> int) {
    && (forall a, b :: -1 <= compare(a, b) <= 1)
    && (forall a, b :: compare(a, b) == -compare(b, a))
    && (forall a, b, c :: compare(a, b) <= 0 && compare(b, c) <= 0 ==> compare(a, c) <= 0)
  }

  ghost predicate Sorted<T>(compare: (T, T) -> int, s: seq<T>) {
    forall i, j :: 0 <= i <= j < |s| ==> compare(s[i], s[j]) <= 0
  }

  class List<T(!new)> {
    var head: Node?<T>
    var length: int
    ghost var nodes: seq<Node<T>>   // the chain, from the head

    ghost predicate Valid()
      reads this, nodes
      ensures Valid() ==> length == |nodes|
    {
      && length == |nodes|
      && head == (if nodes == [] then null else nodes[0])
      && (forall i {:trigger nodes[i].next} :: 0 <= i < |nodes| ==> nodes[i].next == if i == |nodes| - 1 then null else nodes[i + 1])
      && (forall i, j :: 0 <= i < j < |nodes| ==> nodes[i] != nodes[j])
    }

    ghost function Contents(): seq<T>
      reads this
    {
      Data(nodes)
    }

    constructor ()
      ensures Valid() && nodes == []
    {
      head, length, nodes := null, 0, [];
    }

    /** iterate_ll */
    method Iterate(index: int) returns (cursor: Node?<T>)
      requires Valid()
      ensures cursor == if 0 <= index < length then nodes[index] else null
    {
      if index < 0 || index >= length {
        return null;
      }
      cursor := head;
      for i := 0 to index
        invariant cursor == nodes[i]
      {
        cursor := cursor.next;
      }
    }

    /** insert_ll: the new node takes the place `index`, which the code does not check. */
    method Insert(index: int, data: T)
      requires Valid() && 0 <= index <= length
      modifies this, nodes
      ensures Valid() && (forall n :: n in nodes ==> n in old(nodes) || fresh(n))
      ensures Contents() == old(Contents())[..index] + [data] + old(Contents())[index..]
    {
      hide Data;
      ghost var ns := nodes;
      var node := new Node(data);
      if index == 0 {
        node.next := head;
        head := node;
      } else {
        var cursor := Iterate(index - 1);
        node.next := cursor.next;
        cursor.next := node;
      }
      length := length + 1;
      nodes := ns[..index] + [node] + ns[index..];
    }

    /** retrieve_ll */
    method Retrieve(index: int) returns (data: Option<T>)
      requires Valid()
      ensures data == if 0 <= index < length then Some(Contents()[index]) else None
    {
      var cursor := Iterate(index);
      data := if cursor != null then Some(cursor.data) else None;
    }

    /** binary_search_ll: an element found compares equal, on any list; on a list sorted by a
      * total order, one is found exactly if there is one.  Each retrieve is of a valid
      * position. */
    method BinarySearch(query: T, compare: (T, T) -> int) returns (found: bool)
      requires Valid()
      ensures found ==> exists i :: 0 <= i < length && compare(Contents()[i], query) !in {-1, 1}
      ensures TotalOrder(compare) && Sorted(compare, Contents()) ==>
                (found <==> exists i :: 0 <= i < length && compare(Contents()[i], query) == 0)
    {
      ghost var c := Contents();
      ghost var ordered := TotalOrder(compare) && Sorted(compare, c);
      var position := length / 2;
      var minChecked, maxChecked := 0, length;
      while maxChecked > minChecked
        invariant 0 <= minChecked <= maxChecked <= length
        invariant position == (minChecked + maxChecked) / 2
        invariant ordered ==> forall i :: 0 <= i < minChecked ==> compare(c[i], query) == -1
        invariant ordered ==> forall i :: maxChecked <= i < length ==> compare(c[i], query) == 1
        decreases maxChecked - minChecked
      {
        var data := Retrieve(position);
        if compare(data.value, query) == 1 {
          if ordered {
            AboveStaysAbove(c, compare, position, query);
          }
          maxChecked := position;
          if position != (minChecked + position) / 2 {
            position := (minChecked + position) / 2;
          } else {
            break;
          }
        } else if compare(data.value, query) == -1 {
          if ordered {
            BelowStaysBelow(c, compare, position, query);
          }
          minChecked := position;
          if position != (maxChecked + position) / 2 {
            position := (maxChecked + position) / 2;
          } else {
            assert ordered ==> forall i :: 0 <= i < length ==> compare(c[i], query) != 0;
            break;
          }
        } else {
          return true;
        }
      }
      found := false;
    }
  }

  lemma AboveStaysAbove<T(!new)>(s: seq<T>, compare: (T, T) -> int, k: nat, query: T)
    requires TotalOrder(compare) && Sorted(compare, s) && k < |s| && compare(s[k], query) == 1
    ensures forall i :: k <= i < |s| ==> compare(s[i], query) == 1
  {
    forall i | k <= i < |s|
      ensures compare(s[i], query) == 1
    {
      assert compare(s[k], s[i]) <= 0;
    }
  }

  lemma BelowStaysBelow<T(!new)>(s: seq<T>, compare: (T, T) -> int, k: nat, query: T)
    requires TotalOrder(compare) && Sorted(compare, s) && k < |s| && compare(s[k], query) == -1
    ensures forall i :: 0 <= i <= k ==> compare(s[i], query) == -1
  {
    forall i | 0 <= i <= k
      ensures compare(s[i], query) == -1
    {
      assert compare(s[i], s[k]) <= 0;
    }
  }
}
