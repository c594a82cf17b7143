/** The heap binary search tree (BinarySearchTree.c).  A node greater than the sought data
  * sends the search to `next`, a smaller one to `previous`.
  */
module BinarySearchTree {
  import opened Options
  import opened LinkedList

  class TreeNode<T> {
    const data: T
    var next: TreeNode?<T>
    var previous: TreeNode?<T>

    constructor (data: T)
      ensures this.data == data && next == null && previous == null
    {
      this.data := data;
      next, previous := null, null;
    }
  }

  /** The shape of a tree in the heap: which node is where. */
  datatype Shape<T> = Leaf | Branch(node: TreeNode<T>, next: Shape<T>, previous: Shape<T>)

  ghost function Root<T>(t: Shape<T>): Option<TreeNode<T>> {
    if t.Leaf? then None else Some(t.node)
  }

  ghost function Nodes<T>(t: Shape<T>): set<TreeNode<T>> {
    if t.Leaf? then {} else {t.node} + Nodes(t.next) + Nodes(t.previous)
  }

  ghost function Elements<T>(t: Shape<T>): set<T> {
    if t.Leaf? then {} else {t.node.data} + Elements(t.next) + Elements(t.previous)
  }

  ghost function Link<T>(n: TreeNode?<T>): Option<TreeNode<T>> {
    if n == null then None else Some(n)
  }

  /** The two links each node has in a shape. */
  ghost function Links<T>(t: Shape<T>): (m: map<TreeNode<T>, (Option<TreeNode<T>>, Option<TreeNode<T>>)>)
    ensures m.Keys == Nodes(t)
  {
    if t.Leaf? then map[] else Links(t.next) + Links(t.previous) + map[t.node := (Root(t.next), Root(t.previous))]
  }

  /** No node occurs twice. */
  ghost predicate Distinct<T>(t: Shape<T>) {
    t.Branch? ==>
      && t.node !in Nodes(t.next) && t.node !in Nodes(t.previous) && Nodes(t.next) !! Nodes(t.previous)
      && Distinct(t.next) && Distinct(t.previous)
  }

  /** The heap has this shape. */
  ghost predicate Linked<T>(t: Shape<T>)
    reads Nodes(t)
  {
    Distinct(t) && forall n :: n in Nodes(t) ==> Link(n.next) == Links(t)[n].0 && Link(n.previous) == Links(t)[n].1
  }

  /** The mirrored search order: a node is greater than everything on its `next` side and
    * smaller than everything on its `previous` side. */
  ghost predicate Ordered<T(!new)>(t: Shape<T>, compare: (T, T) -> int) {
    t.Branch? ==>
      && (forall x :: x in Elements(t.next) ==> compare(t.node.data, x) == 1)
      && (forall x :: x in Elements(t.previous) ==> compare(t.node.data, x) == -1)
      && Ordered(t.next, compare) && Ordered(t.previous, compare)
  }

  /** Where iterate_bst stops, and the direction it reports. */
  ghost function Descend<T(!new)>(t: Shape<T>, data: T, compare: (T, T) -> int): (TreeNode<T>, int)
    requires t.Branch?
  {
    var c := compare(t.node.data, data);
    if c == 1 then if t.next.Branch? then Descend(t.next, data, compare) else (t.node, 1)
    else if c == -1 then if t.previous.Branch? then Descend(t.previous, data, compare) else (t.node, -1)
    else (t.node, 0)
  }

  /** The shape with `n` hung in where a search for its data ends. */
  ghost function Graft<T(!new)>(t: Shape<T>, n: TreeNode<T>, compare: (T, T) -> int): Shape<T> {
    if t.Leaf? then Branch(n, Leaf, Leaf)
    else
      var c := compare(t.node.data, n.data);
      if c == 1 then t.(next := Graft(t.next, n, compare))
      else if c == -1 then t.(previous := Graft(t.previous, n, compare))
      else t
  }

  lemma {:induction false} DescendIsInside<T(!new)>(t: Shape<T>, data: T, compare: (T, T) -> int)
    requires t.Branch?
    ensures var (node, direction) := Descend(t, data, compare);
            && node in Nodes(t) && node.data in Elements(t)
            && (direction == 0 ==> compare(node.data, data) !in {-1, 1})
            && direction in {-1, 0, 1}
  {
    var c := compare(t.node.data, data);
    if c == 1 && t.next.Branch? {
      DescendIsInside(t.next, data, compare);
    } else if c == -1 && t.previous.Branch? {
      DescendIsInside(t.previous, data, compare);
    }
  }

  /** On an ordered tree the search misses nothing, and what it finds is the only equal element. */
  lemma {:induction false} DescendFindsAll<T(!new)>(t: Shape<T>, data: T, compare: (T, T) -> int)
    requires t.Branch? && TotalOrder(compare) && Ordered(t, compare)
    ensures var (node, direction) := Descend(t, data, compare);
            && (forall x :: x in Elements(t) && compare(x, data) == 0 ==> direction == 0 && x == node.data)
            && (direction == 0 ==> compare(node.data, data) == 0)
  {
    DescendIsInside(t, data, compare);
    var d := t.node.data;
    var c := compare(d, data);
    var (node, direction) := Descend(t, data, compare);
    forall x | x in Elements(t) && compare(x, data) == 0
      ensures direction == 0 && x == node.data
    {
      assert compare(data, x) == 0;
      assert compare(d, x) <= 0 || compare(x, d) <= 0;
      if x in Elements(t.next) {
        assert compare(d, x) == 1 && compare(x, d) == -1;
        assert compare(d, data) <= 0 ==> compare(d, x) <= 0;
        DescendFindsAll(t.next, data, compare);
      } else if x in Elements(t.previous) {
        assert compare(d, x) == -1;
        assert compare(data, d) <= 0 ==> compare(x, d) <= 0;
        DescendFindsAll(t.previous, data, compare);
      } else {
        assert x == d && c == 0;
      }
    }
  }

  lemma {:induction false} GraftElements<T(!new)>(t: Shape<T>, n: TreeNode<T>, compare: (T, T) -> int)
    requires Ordered(t, compare)
    ensures Ordered(Graft(t, n, compare), compare)
    ensures var found := t.Branch? && Descend(t, n.data, compare).1 == 0;
            && Elements(Graft(t, n, compare)) == Elements(t) + (if found then {} else {n.data})
  {
    if t.Branch? {
      GraftElements(t.next, n, compare);
      GraftElements(t.previous, n, compare);
    }
  }

  lemma {:induction false} GraftNodes<T(!new)>(t: Shape<T>, n: TreeNode<T>, compare: (T, T) -> int)
    requires t.Branch? && Distinct(t) && n !in Nodes(t) && Descend(t, n.data, compare).1 != 0
    ensures Distinct(Graft(t, n, compare)) && Root(Graft(t, n, compare)) == Some(t.node)
    ensures Nodes(Graft(t, n, compare)) == Nodes(t) + {n}
    ensures Descend(t, n.data, compare).0 in Nodes(t)
  {
    var c := compare(t.node.data, n.data);
    if c == 1 && t.next.Branch? {
      GraftNodes(t.next, n, compare);
    } else if c == -1 && t.previous.Branch? {
      GraftNodes(t.previous, n, compare);
    }
  }

  lemma LinksOfBranch<T>(t: Shape<T>)
    requires t.Branch? && Distinct(t)
    ensures Links(t)[t.node] == (Root(t.next), Root(t.previous))
    ensures forall m :: m in Nodes(t.next) ==> Links(t)[m] == Links(t.next)[m]
    ensures forall m :: m in Nodes(t.previous) ==> Links(t)[m] == Links(t.previous)[m]
  {
  }

  /** Grafting a new node changes one link: the one the search reports. */
  lemma {:induction false} GraftLinks<T(!new)>(t: Shape<T>, n: TreeNode<T>, compare: (T, T) -> int)
    requires t.Branch? && Distinct(t) && n !in Nodes(t) && Descend(t, n.data, compare).1 != 0
    ensures Nodes(Graft(t, n, compare)) == Nodes(t) + {n}
    ensures var (place, direction) := Descend(t, n.data, compare);
            var g := Graft(t, n, compare);
            && place in Nodes(t)
            && (forall m :: m in Nodes(t) && m != place ==> Links(g)[m] == Links(t)[m])
            && Links(g)[place] == (if direction == 1 then (Some(n), Links(t)[place].1) else (Links(t)[place].0, Some(n)))
            && Links(g)[n] == (None, None)
  {
    GraftNodes(t, n, compare);
    var c := compare(t.node.data, n.data);
    if c == 1 && t.next.Branch? {
      var u := Graft(t.next, n, compare);
      assert Graft(t, n, compare) == t.(next := u) && Descend(t, n.data, compare) == Descend(t.next, n.data, compare);
      GraftNodes(t.next, n, compare);
      assert Distinct(t.(next := u));
      hide Graft, Descend, Elements;
      GraftLinks(t.next, n, compare);
      LinksOfBranch(t);
      LinksOfBranch(t.(next := u));
    } else if c == -1 && t.previous.Branch? {
      var u := Graft(t.previous, n, compare);
      assert Graft(t, n, compare) == t.(previous := u) && Descend(t, n.data, compare) == Descend(t.previous, n.data, compare);
      GraftNodes(t.previous, n, compare);
      assert Distinct(t.(previous := u));
      hide Graft, Descend, Elements;
      GraftLinks(t.previous, n, compare);
      LinksOfBranch(t);
      LinksOfBranch(t.(previous := u));
    }
  }

  /** A heap in which that one link was set has the grafted shape. */
  lemma HungIsLinked<T(!new)>(t: Shape<T>, place: TreeNode<T>, direction: int, n: TreeNode<T>, compare: (T, T) -> int)
    requires t.Branch? && Distinct(t) && n !in Nodes(t) && place in Nodes(t)
    requires direction != 0 && Descend(t, n.data, compare) == (place, direction)
    requires forall m :: m in Nodes(t) && m != place ==> Link(m.next) == Links(t)[m].0 && Link(m.previous) == Links(t)[m].1
    requires Link(place.next) == if direction == 1 then Some(n) else Links(t)[place].0
    requires Link(place.previous) == if direction == 1 then Links(t)[place].1 else Some(n)
    requires n.next == null && n.previous == null
    ensures Linked(Graft(t, n, compare)) && Nodes(Graft(t, n, compare)) == Nodes(t) + {n}
    ensures Root(Graft(t, n, compare)) == Root(t)
  {
    assert Root(t) == Some(t.node);
    hide Graft, Descend, Links, Distinct, Nodes, Root, Elements;
    GraftNodes(t, n, compare);
    GraftLinks(t, n, compare);
    var g := Graft(t, n, compare);
    forall m | m in Nodes(g)
      ensures Link(m.next) == Links(g)[m].0 && Link(m.previous) == Links(g)[m].1
    {
      if m == n {
      } else if m == place {
      } else {
      }
    }
  }

  class Tree<T(!new)> {
    const compare: (T, T) -> int
    var head: TreeNode?<T>
    ghost var shape: Shape<T>
    ghost var nodes: set<TreeNode<T>>

    ghost predicate Valid()
      reads this, nodes
    {
      nodes == Nodes(shape) && Link(head) == Root(shape) && Linked(shape) && Ordered(shape, compare)
    }

    constructor (compare: (T, T) -> int)
      ensures Valid() && this.compare == compare && shape == Leaf
    {
      this.compare := compare;
      head, shape, nodes := null, Leaf, {};
    }

    /** iterate_bst */
    method Iterate(cursor: TreeNode<T>, data: T, ghost t: Shape<T>) returns (place: TreeNode<T>, direction: int)
      requires t.Branch? && t.node == cursor && Linked(t)
      ensures (place, direction) == Descend(t, data, compare)
      decreases t
    {
      if compare(cursor.data, data) == 1 {
        if cursor.next != null {
          place, direction := Iterate(cursor.next, data, t.next);
        } else {
          place, direction := cursor, 1;
        }
      } else if compare(cursor.data, data) == -1 {
        if cursor.previous != null {
          place, direction := Iterate(cursor.previous, data, t.previous);
        } else {
          place, direction := cursor, -1;
        }
      } else {
        place, direction := cursor, 0;
      }
    }

    /** search_bst, which its callers reach only for a tree that has a node. */
    method Search(data: T) returns (found: Option<T>)
      requires Valid() && head != null && TotalOrder(compare)
      ensures found.Some? ==> found.value in Elements(shape) && compare(found.value, data) == 0
      ensures forall x :: x in Elements(shape) && compare(x, data) == 0 ==> found == Some(x)
    {
      DescendIsInside(shape, data, compare);
      DescendFindsAll(shape, data, compare);
      var cursor, direction := Iterate(head, data, shape);
      if direction == 0 {
        found := Some(cursor.data);
      } else {
        found := None;
      }
    }

    ghost predicate Present(t: Shape<T>, data: T) {
      exists x :: x in Elements(t) && compare(x, data) == 0
    }

    /** The end of insert_bst: a new node is hung in where the search ended. */
    method Hang(place: TreeNode<T>, direction: int, data: T)
      requires Valid() && shape.Branch? && direction != 0 && Descend(shape, data, compare) == (place, direction)
      modifies this, nodes
      ensures Valid() && forall n :: n in nodes ==> n in old(nodes) || fresh(n)
      ensures Elements(shape) == old(Elements(shape)) + {data}
    {
      hide Distinct, Links, Graft, Descend, Ordered, Elements, Nodes, Root;
      DescendIsInside(shape, data, compare);
      var node := new TreeNode(data);
      if direction == 1 {
        place.next := node;
      } else {
        place.previous := node;
      }
      ghost var t := shape;
      shape, nodes := Graft(t, node, compare), nodes + {node};
      HungIsLinked(t, place, direction, node, compare);
      GraftElements(t, node, compare);
    }

    /** insert_bst */
    method Insert(data: T)
      requires Valid() && TotalOrder(compare)
      modifies this, nodes
      ensures Valid() && forall n :: n in nodes ==> n in old(nodes) || fresh(n)
      ensures Elements(shape) == old(Elements(shape)) +
              if Present(old(shape), data) then {} else {data}
    {
      if head == null {
        head := new TreeNode(data);
        shape, nodes := Branch(head, Leaf, Leaf), {head};
        return;
      }
      assert shape.Branch? && shape.node == head;
      hide TotalOrder, Distinct, Links, Graft, Descend, Ordered, Elements, Nodes, Root, Link;
      DescendIsInside(shape, data, compare);
      DescendFindsAll(shape, data, compare);
      var cursor, direction := Iterate(head, data, shape);
      assert Present(shape, data) <==> direction == 0;
      hide Present;
      if direction != 0 {
        Hang(cursor, direction, data);
      }
    }
  }
}
