/** The string dictionary over a heap search tree and a list of keys (Dictionary.c, Entry.c).
  * A key is the text of a C string.
  */
module Dictionary {
  import opened Options
  import opened LinkedList
  import opened BinarySearchTree

  /** An entry; a search makes one without a value. */
  datatype Entry<+V> = Entry(key: string, value: Option<V>)

  /** The sign of strcmp. */
  function StrCmp(a: string, b: string): int {
    if a == [] then if b == [] then 0 else -1
    else if b == [] then 1
    else if a[0] < b[0] then -1
    else if a[0] > b[0] then 1
    else StrCmp(a[1..], b[1..])
  }

  function CompareStringKeys<V>(one: Entry<V>, two: Entry<V>): int {
    if StrCmp(one.key, two.key) > 0 then 1
    else if StrCmp(one.key, two.key) < 0 then -1
    else 0
  }

  lemma {:induction false} StrCmpIsEquality(a: string, b: string)
    ensures StrCmp(a, b) == 0 <==> a == b
    ensures StrCmp(a, b) == -StrCmp(b, a)
  {
    if a != [] && b != [] {
      assert a == [a[0]] + a[1..] && b == [b[0]] + b[1..];
      StrCmpIsEquality(a[1..], b[1..]);
    }
  }

  lemma {:induction false} StrCmpIsTransitive(a: string, b: string, c: string)
    requires StrCmp(a, b) <= 0 && StrCmp(b, c) <= 0
    ensures StrCmp(a, c) <= 0
  {
    if a != [] && b != [] && c != [] && a[0] == b[0] == c[0] {
      StrCmpIsTransitive(a[1..], b[1..], c[1..]);
    }
  }

  /** The order is that of the first characters that differ, and a proper prefix comes first. */
  lemma {:induction false} StrCmpIsLexicographic(p: string, c: char, d: char, a: string, b: string)
    requires c < d
    ensures StrCmp(p + ([c] + a), p + ([d] + b)) == -1
    ensures StrCmp(p, p + ([c] + a)) == -1
  {
    if p == [] {
      assert p + ([c] + a) == [c] + a && p + ([d] + b) == [d] + b;
    } else {
      StrCmpIsLexicographic(p[1..], c, d, a, b);
      assert (p + ([c] + a))[1..] == p[1..] + ([c] + a) && (p + ([d] + b))[1..] == p[1..] + ([d] + b);
    }
  }

  /** The dictionary's comparison is a total order whose equality is equality of keys. */
  lemma CompareIsTotalOrder<V(!new)>()
    ensures TotalOrder<Entry<V>>(CompareStringKeys)
    ensures forall x: Entry<V>, y: Entry<V> :: CompareStringKeys(x, y) == 0 <==> x.key == y.key
  {
    forall x: Entry<V>, y: Entry<V>
      ensures CompareStringKeys(x, y) == 0 <==> x.key == y.key
      ensures CompareStringKeys(x, y) == -CompareStringKeys(y, x)
    {
      StrCmpIsEquality(x.key, y.key);
    }
    forall x: Entry<V>, y: Entry<V>, z: Entry<V> | CompareStringKeys(x, y) <= 0 && CompareStringKeys(y, z) <= 0
      ensures CompareStringKeys(x, z) <= 0
    {
      StrCmpIsTransitive(x.key, y.key, z.key);
    }
  }

  function Lookup<V>(m: map<string, V>, key: string): Option<V> {
    if key in m then Some(m[key]) else None
  }

  /** The map after some insertions: the first one of a key counts. */
  function FirstOfEach<V>(inserts: seq<(string, V)>): map<string, V> {
    if inserts == [] then map[]
    else
      var before := FirstOfEach(inserts[..|inserts| - 1]);
      var (key, value) := inserts[|inserts| - 1];
      if key in before then before else before[key := value]
  }

  /** Whether the entries of a tree are those of a map. */
  ghost predicate Represents<V(!new)>(entries: set<Entry<V>>, m: map<string, V>) {
    && (forall e :: e in entries ==> e.value.Some? && e.key in m && m[e.key] == e.value.value)
    && (forall k :: k in m ==> Entry(k, Some(m[k])) in entries)
  }

  lemma RepresentsMore<V(!new)>(entries: set<Entry<V>>, inserts: seq<(string, V)>, key: string, value: V, had: bool)
    requires Represents(entries, FirstOfEach(inserts))
    requires had <==> exists e :: e in entries && e.key == key
    ensures Represents(entries + (if had then {} else {Entry(key, Some(value))}), FirstOfEach(inserts + [(key, value)]))
  {
    assert (inserts + [(key, value)])[..|inserts|] == inserts;
  }

  /** An entry whose key compares equal holds the key's value in the map, and there is one if the
    * map has the key. */
  lemma FoundIsLookup<V(!new)>(entries: set<Entry<V>>, m: map<string, V>, key: string)
    requires Represents(entries, m)
    ensures forall e :: e in entries && CompareStringKeys(e, Entry(key, None)) == 0 ==> e.value == Lookup(m, key) && e.value.Some?
    ensures (forall e :: e in entries ==> CompareStringKeys(e, Entry(key, None)) != 0) ==> Lookup(m, key) == None
  {
    forall e | e in entries
      ensures CompareStringKeys(e, Entry(key, None)) == 0 <==> e.key == key
    {
      StrCmpIsEquality(e.key, key);
    }
  }

  ghost function Keys<V>(inserts: seq<(string, V)>): (keys: seq<string>)
    ensures |keys| == |inserts| && forall i :: 0 <= i < |keys| ==> keys[i] == inserts[i].0
  {
    seq(|inserts|, i requires 0 <= i < |inserts| => inserts[i].0)
  }

  class Dict<V(!new)> {
    const tree: Tree<Entry<V>>
    const keys: List<string>
    ghost var inserts: seq<(string, V)>   // every insertion, in order

    /** The tree holds the first value of each key ever inserted, and the key list is the
      * whole history of keys. */
    ghost predicate Valid()
      reads this, tree, tree.nodes, keys, keys.nodes
    {
      && tree.Valid() && keys.Valid()
      && tree.compare == CompareStringKeys
      && Represents(Elements(tree.shape), FirstOfEach(inserts))
      && keys.Contents() == Keys(inserts)
    }

    ghost function Repr(): set<object>
      reads this, tree, keys
    {
      {this as object, tree, keys} + tree.nodes + (set o: object | o in keys.nodes)
    }

    ghost function View(): map<string, V>
      reads this
    {
      FirstOfEach(inserts)
    }

    constructor ()
      ensures Valid() && inserts == []
      ensures fresh(Repr())
    {
      tree := new Tree(CompareStringKeys);
      keys := new List();
      inserts := [];
    }

    /** search_dict */
    method Search(key: string) returns (value: Option<V>)
      requires Valid()
      ensures value == Lookup(View(), key)
    {
      if tree.head == null {
        return None;
      }
      hide TotalOrder, Represents, FirstOfEach, Elements, CompareStringKeys, tree.Valid, keys.Valid;
      CompareIsTotalOrder<V>();
      FoundIsLookup(Elements(tree.shape), View(), key);
      var searchable := Entry(key, None);
      var result := tree.Search(searchable);
      value := if result.Some? then result.value.value else None;
    }

    /** insert_dict */
    method Insert(key: string, value: V)
      requires Valid()
      modifies Repr()
      ensures Valid() && inserts == old(inserts) + [(key, value)]
      ensures fresh(Repr() - old(Repr()))
    {
      hide TotalOrder, Represents, FirstOfEach, Elements, CompareStringKeys, tree.Valid, keys.Valid;
      CompareIsTotalOrder<V>();
      ghost var entries := Elements(tree.shape);
      ghost var had := tree.Present(tree.shape, Entry(key, Some(value)));
      tree.Insert(Entry(key, Some(value)));
      keys.Insert(keys.length, key);
      RepresentsMore(entries, inserts, key, value, had);
      ghost var before := inserts;
      inserts := before + [(key, value)];
      assert Keys(inserts) == Keys(before) + [key];
    }
  }

  // ------------------------------------------------------------ the meaning of the map

  /** A key's value is that of its first insertion; other keys have none. */
  lemma {:induction false} FirstInsertCounts<V>(inserts: seq<(string, V)>, key: string)
    ensures key in FirstOfEach(inserts) <==> exists i :: 0 <= i < |inserts| && inserts[i].0 == key
    ensures forall i :: 0 <= i < |inserts| && inserts[i].0 == key && (forall j :: 0 <= j < i ==> inserts[j].0 != key) ==>
              key in FirstOfEach(inserts) && FirstOfEach(inserts)[key] == inserts[i].1
  {
    if inserts != [] {
      FirstInsertCounts(inserts[..|inserts| - 1], key);
    }
  }

  /** The keys in the key list are the keys of the map. */
  lemma KeyListIsDomain<V>(inserts: seq<(string, V)>, key: string)
    ensures key in Keys(inserts) <==> key in FirstOfEach(inserts)
  {
    FirstInsertCounts(inserts, key);
    forall i | 0 <= i < |inserts|
      ensures Keys(inserts)[i] == inserts[i].0
    {
    }
  }
}
