/** The insertion-ordered map: a hash table from keys to nodes, and the nodes linked in a
    ring through a sentinel, oldest entry first after the sentinel, newest just before it.
    The ghost fields record the live nodes in ring order and every node unlinked so far
    with the links it kept; the ring model in RingModel describes what an iterator does
    with them, and the reference specification in AssocList what the entries are. */
module OrderedMaps {
  import opened Wrappers
  import opened SeqUtil
  import AssocList
  import opened RingModel
  import opened Nodes

  /** The node a link of the ring model stands for, given the sentinel. */
  function Target<K(0), V(0)>(root: Node<K, V>, l: Link<Node<K, V>>): Node<K, V>
  {
    if l.Root? then root else l.node
  }

  /** The table maps each key to the live node holding it, and holds every live node. */
  ghost predicate Indexed<K(0), V(0)>(table: map<K, Node<K, V>>, ns: seq<Node<K, V>>)
  {
    && (forall k :: k in table ==> table[k] in ns && table[k].key == k)
    && (forall i :: 0 <= i < |ns| ==> ns[i].key in table && table[ns[i].key] == ns[i])
  }

  /** The sentinel's links lead to the oldest and the newest live node. */
  ghost predicate Ends<K(0), V(0)>(root: Node<K, V>, ns: seq<Node<K, V>>)
    reads root`next, root`prev
  {
    && root.next == Target(root, if ns == [] then Root else To(ns[0]))
    && root.prev == Target(root, if ns == [] then Root else To(ns[|ns| - 1]))
  }

  /** Each live node's next link leads to the following one, the newest to the sentinel. */
  ghost predicate Forward<K(0), V(0)>(root: Node<K, V>, ns: seq<Node<K, V>>)
    reads ns`next
  {
    forall i {:trigger ns[i].next} :: 0 <= i < |ns| ==> ns[i].next == Target(root, NextLink(ns, i))
  }

  /** Each live node's prev link leads to the preceding one, the oldest to the sentinel. */
  ghost predicate Backward<K(0), V(0)>(root: Node<K, V>, ns: seq<Node<K, V>>)
    reads ns`prev
  {
    forall i {:trigger ns[i].prev} :: 0 <= i < |ns| ==> ns[i].prev == Target(root, PrevLink(ns, i))
  }

  /** Each unlinked node still holds the links recorded in its grave. */
  ghost predicate Kept<K(0), V(0)>(root: Node<K, V>, gs: seq<Grave<Node<K, V>>>)
    reads Buried(gs)`next, Buried(gs)`prev
  {
    forall j :: 0 <= j < |gs| ==>
      Buried(gs)[j].next == Target(root, gs[j].next) && Buried(gs)[j].prev == Target(root, gs[j].prev)
  }

  /** The heap links agree with the ring model: live nodes and the sentinel form the ring
      in order, and each unlinked node still holds the links recorded for it. */
  ghost predicate Linked<K(0), V(0)>(root: Node<K, V>, ns: seq<Node<K, V>>, gs: seq<Grave<Node<K, V>>>)
    reads root`next, root`prev, ns`next, ns`prev, Buried(gs)`next, Buried(gs)`prev
  {
    Ends(root, ns) && Forward(root, ns) && Backward(root, ns) && Kept(root, gs)
  }

  /** No unlinked node is live. */
  ghost predicate Apart<N>(ns: seq<N>, gs: seq<Grave<N>>)
  {
    forall n :: n in ns ==> n !in Buried(gs)
  }

  /** Linking a node just before the sentinel keeps the heap in step with Append. */
  twostate lemma LinkedAppend<K(0), V(0)>(new root: Node<K, V>, new ns: seq<Node<K, V>>,
                                          new gs: seq<Grave<Node<K, V>>>, new last: Node<K, V>,
                                          new node: Node<K, V>)
    requires old(allocated(root)) && old(allocated(ns)) && old(allocated(gs))
    requires old(Linked(root, ns, gs)) && Distinct(ns) && Apart(ns, gs)
    requires root !in ns && root !in Buried(gs) && node !in ns && node !in Buried(gs) && node != root
    requires last == old(root.prev)
    requires node.next == root && node.prev == last && root.prev == node && last.next == node
    requires last != root ==> root.next == old(root.next) && last.prev == old(last.prev)
    requires forall m: Node<K, V> :: old(allocated(m)) && m != root && m != last && m != node ==>
               m.next == old(m.next) && m.prev == old(m.prev)
    ensures Linked(root, ns + [node], gs)
  {
    assert ns != [] ==> last == ns[|ns| - 1];
    forall i | 0 <= i < |ns| - 1 ensures ns[i] != last {
      assert ns[i] != ns[|ns| - 1];
    }
    forall j | 0 <= j < |gs| ensures Buried(gs)[j] != last && Buried(gs)[j] != node {
      assert Buried(gs)[j] in Buried(gs);
    }
  }

  /** Linking a node just after the sentinel keeps the heap in step with Prepend. */
  twostate lemma LinkedPrepend<K(0), V(0)>(new root: Node<K, V>, new ns: seq<Node<K, V>>,
                                           new gs: seq<Grave<Node<K, V>>>, new first: Node<K, V>,
                                           new node: Node<K, V>)
    requires old(allocated(root)) && old(allocated(ns)) && old(allocated(gs))
    requires old(Linked(root, ns, gs)) && Distinct(ns) && Apart(ns, gs)
    requires root !in ns && root !in Buried(gs) && node !in ns && node !in Buried(gs) && node != root
    requires first == old(root.next)
    requires node.prev == root && node.next == first && root.next == node && first.prev == node
    requires first != root ==> root.prev == old(root.prev) && first.next == old(first.next)
    requires forall m: Node<K, V> :: old(allocated(m)) && m != root && m != first && m != node ==>
               m.next == old(m.next) && m.prev == old(m.prev)
    ensures Linked(root, [node] + ns, gs)
  {
    var ns' := [node] + ns;
    assert ns != [] ==> first == ns[0];
    forall q | 0 <= q < |ns'| ensures ns'[q].next == Target(root, NextLink(ns', q)) {
      if 0 < q {
        assert ns'[q] == ns[q - 1];
      }
    }
    forall q | 0 <= q < |ns'| ensures ns'[q].prev == Target(root, PrevLink(ns', q)) {
      if 1 < q {
        assert ns'[q] == ns[q - 1] != ns[0];
      } else if q == 1 {
        assert ns'[q] == first;
      }
    }
    assert ns != [] ==> ns'[|ns'| - 1] == ns[|ns| - 1];
    forall j | 0 <= j < |gs| ensures Buried(gs)[j] != first && Buried(gs)[j] != node {
      assert Buried(gs)[j] in Buried(gs);
    }
  }

  /** Unlinking the i-th live node, whose old neighbours are a and b, keeps the next links
      of the others in step with Remove. */
  twostate lemma ForwardRemove<K(0), V(0)>(new root: Node<K, V>, new ns: seq<Node<K, V>>, i: nat,
                                           new a: Node<K, V>, new b: Node<K, V>)
    requires old(allocated(root)) && old(allocated(ns))
    requires old(Forward(root, ns)) && Distinct(ns) && i < |ns| && root !in ns
    requires a == Target(root, NextLink(ns, i)) && b == Target(root, PrevLink(ns, i))
    requires b.next == a && (a != b ==> a.next == old(a.next))
    requires forall m: Node<K, V> :: old(allocated(m)) && m != b ==> m.next == old(m.next)
    ensures Forward(root, ns[..i] + ns[i + 1..])
  {
    var rest := ns[..i] + ns[i + 1..];
    forall q | 0 <= q < |rest| ensures rest[q].next == Target(root, NextLink(rest, q)) {
      if q + 1 < i {
        assert rest[q] == ns[q] && rest[q + 1] == ns[q + 1];
        assert ns[q] != ns[i - 1];
      } else if q + 1 == i {
        assert rest[q] == b;
      } else {
        assert rest[q] == ns[q + 1];
        assert q + 2 < |ns| ==> rest[q + 1] == ns[q + 2];
        assert ns[q + 1] != b by {
          if 0 < i { assert ns[i - 1] != ns[q + 1]; }
        }
      }
    }
  }

  /** The same for the prev links. */
  twostate lemma BackwardRemove<K(0), V(0)>(new root: Node<K, V>, new ns: seq<Node<K, V>>, i: nat,
                                            new a: Node<K, V>, new b: Node<K, V>)
    requires old(allocated(root)) && old(allocated(ns))
    requires old(Backward(root, ns)) && Distinct(ns) && i < |ns| && root !in ns
    requires a == Target(root, NextLink(ns, i)) && b == Target(root, PrevLink(ns, i))
    requires a.prev == b
    requires forall m: Node<K, V> :: old(allocated(m)) && m != a ==> m.prev == old(m.prev)
    ensures Backward(root, ns[..i] + ns[i + 1..])
  {
    var rest := ns[..i] + ns[i + 1..];
    forall q | 0 <= q < |rest| ensures rest[q].prev == Target(root, PrevLink(rest, q)) {
      if q < i {
        assert rest[q] == ns[q] && (0 < q ==> rest[q - 1] == ns[q - 1]);
        assert i + 1 < |ns| ==> ns[q] != ns[i + 1];
      } else if q == i {
        assert rest[q] == a;
      } else {
        assert rest[q] == ns[q + 1] && rest[q - 1] == ns[q];
        assert ns[i + 1] != ns[q + 1];
      }
    }
  }

  /** Unlinking a live node moves the sentinel's links past it when it was at an end. */
  twostate lemma EndsRemove<K(0), V(0)>(new root: Node<K, V>, new ns: seq<Node<K, V>>, i: nat,
                                        new a: Node<K, V>, new b: Node<K, V>)
    requires old(allocated(root)) && old(allocated(ns))
    requires old(Ends(root, ns)) && Distinct(ns) && i < |ns| && root !in ns
    requires a == Target(root, NextLink(ns, i)) && b == Target(root, PrevLink(ns, i))
    requires a.prev == b && b.next == a
    requires a != b ==> a.next == old(a.next) && b.prev == old(b.prev)
    requires root != a && root != b ==> root.next == old(root.next) && root.prev == old(root.prev)
    ensures Ends(root, ns[..i] + ns[i + 1..])
  {
    var rest := ns[..i] + ns[i + 1..];
    if 0 < i {
      assert rest[0] == ns[0];
    } else if 1 < |ns| {
      assert rest[0] == ns[1];
    }
    if i + 1 < |ns| {
      assert rest[|rest| - 1] == ns[|ns| - 1];
    } else if 0 < i {
      assert rest[|rest| - 1] == ns[i - 1];
    }
  }

  /** Unlinking a live node leaves every link an unlinked node holds, its own included. */
  twostate lemma KeptRemove<K(0), V(0)>(new root: Node<K, V>, new ns: seq<Node<K, V>>,
                                        new gs: seq<Grave<Node<K, V>>>, i: nat,
                                        new a: Node<K, V>, new b: Node<K, V>)
    requires old(allocated(root)) && old(allocated(ns)) && old(allocated(gs))
    requires old(Kept(root, gs)) && old(Forward(root, ns)) && old(Backward(root, ns))
    requires WF(Ring(ns, gs)) && i < |ns| && root !in ns && root !in Buried(gs)
    requires a == Target(root, NextLink(ns, i)) && b == Target(root, PrevLink(ns, i))
    requires forall m: Node<K, V> :: old(allocated(m)) && m != a && m != b ==>
               m.next == old(m.next) && m.prev == old(m.prev)
    ensures Kept(root, gs + [Grave(ns[i], NextLink(ns, i), PrevLink(ns, i))])
  {
    var gs' := gs + [Grave(ns[i], NextLink(ns, i), PrevLink(ns, i))];
    assert Buried(gs') == Buried(gs) + [ns[i]];
    assert i + 1 < |ns| ==> ns[i] != ns[i + 1];
    assert 0 < i ==> ns[i - 1] != ns[i];
    assert ns[i] != a && ns[i] != b;
    forall j | 0 <= j < |gs'|
      ensures Buried(gs')[j].next == Target(root, gs'[j].next)
      ensures Buried(gs')[j].prev == Target(root, gs'[j].prev)
    {
      if j < |gs| {
        assert Buried(gs)[j] in Buried(gs);
        assert Buried(gs')[j] == Buried(gs)[j] != a;
      }
    }
  }

  /** Unlinking the i-th live node keeps the heap in step with Remove. */
  twostate lemma LinkedRemove<K(0), V(0)>(new root: Node<K, V>, new ns: seq<Node<K, V>>,
                                          new gs: seq<Grave<Node<K, V>>>, i: nat,
                                          new a: Node<K, V>, new b: Node<K, V>)
    requires old(allocated(root)) && old(allocated(ns)) && old(allocated(gs))
    requires old(Linked(root, ns, gs)) && WF(Ring(ns, gs)) && i < |ns|
    requires root !in ns && root !in Buried(gs)
    requires a == Target(root, NextLink(ns, i)) && b == Target(root, PrevLink(ns, i))
    requires a.prev == b && b.next == a
    requires a != b ==> a.next == old(a.next) && b.prev == old(b.prev)
    requires forall m: Node<K, V> :: old(allocated(m)) && m != a && m != b ==>
               m.next == old(m.next) && m.prev == old(m.prev)
    ensures Linked(root, ns[..i] + ns[i + 1..], gs + [Grave(ns[i], NextLink(ns, i), PrevLink(ns, i))])
  {
    ForwardRemove(root, ns, i, a, b);
    BackwardRemove(root, ns, i, a, b);
    EndsRemove(root, ns, i, a, b);
    KeptRemove(root, ns, gs, i, a, b);
  }

  /** Unlinking the i-th live node without recording it, as Move does before linking it in
      again, keeps the links of all other nodes in step. */
  twostate lemma LinkedDetach<K(0), V(0)>(new root: Node<K, V>, new ns: seq<Node<K, V>>,
                                          new gs: seq<Grave<Node<K, V>>>, i: nat,
                                          new a: Node<K, V>, new b: Node<K, V>)
    requires old(allocated(root)) && old(allocated(ns)) && old(allocated(gs))
    requires old(Linked(root, ns, gs)) && Distinct(ns) && Apart(ns, gs) && i < |ns|
    requires root !in ns && root !in Buried(gs)
    requires a == Target(root, NextLink(ns, i)) && b == Target(root, PrevLink(ns, i))
    requires a.prev == b && b.next == a
    requires a != b ==> a.next == old(a.next) && b.prev == old(b.prev)
    requires forall m: Node<K, V> :: old(allocated(m)) && m != a && m != b ==>
               m.next == old(m.next) && m.prev == old(m.prev)
    ensures Linked(root, ns[..i] + ns[i + 1..], gs)
  {
    ForwardRemove(root, ns, i, a, b);
    BackwardRemove(root, ns, i, a, b);
    EndsRemove(root, ns, i, a, b);
    assert i + 1 < |ns| ==> ns[i + 1] in ns;
    assert 0 < i ==> ns[i - 1] in ns;
    forall j | 0 <= j < |gs| ensures Buried(gs)[j] != a && Buried(gs)[j] != b {
      assert Buried(gs)[j] in Buried(gs);
    }
  }

  /** Moving the i-th node to the back moves its pair to the back, values untouched. */
  twostate lemma PairsToBack<K(0), V(0)>(new ns: seq<Node<K, V>>, i: nat, new ns': seq<Node<K, V>>)
    requires old(allocated(ns)) && i < |ns| && ns' == ns[..i] + ns[i + 1..] + [ns[i]]
    requires forall m: Node<K, V> :: old(allocated(m)) ==> m.value == old(m.value)
    ensures var es := old(Pairs(ns)); Pairs(ns') == es[..i] + es[i + 1..] + [es[i]]
  {
    var es := old(Pairs(ns));
    var rest, erest := ns[..i] + ns[i + 1..], es[..i] + es[i + 1..];
    CutAt(ns, i, rest);
    CutAt(es, i, erest);
    var moved := erest + [es[i]];
    forall q | 0 <= q < |moved| ensures Pairs(ns')[q] == moved[q] {
      if q < |rest| {
        assert ns'[q] == rest[q] && moved[q] == erest[q];
      }
    }
  }

  /** Moving the i-th node to the front moves its pair to the front, values untouched. */
  twostate lemma PairsToFront<K(0), V(0)>(new ns: seq<Node<K, V>>, i: nat, new ns': seq<Node<K, V>>)
    requires old(allocated(ns)) && i < |ns| && ns' == [ns[i]] + (ns[..i] + ns[i + 1..])
    requires forall m: Node<K, V> :: old(allocated(m)) ==> m.value == old(m.value)
    ensures var es := old(Pairs(ns)); Pairs(ns') == [es[i]] + (es[..i] + es[i + 1..])
  {
    var es := old(Pairs(ns));
    var rest, erest := ns[..i] + ns[i + 1..], es[..i] + es[i + 1..];
    CutAt(ns, i, rest);
    CutAt(es, i, erest);
    var moved := [es[i]] + erest;
    forall q | 0 <= q < |moved| ensures Pairs(ns')[q] == moved[q] {
      if 0 < q {
        assert ns'[q] == rest[q - 1] && moved[q] == erest[q - 1];
      }
    }
  }

  lemma IndexedAppend<K(0), V(0)>(table: map<K, Node<K, V>>, ns: seq<Node<K, V>>, node: Node<K, V>)
    requires Indexed(table, ns) && node.key !in table && node !in ns
    ensures Indexed(table[node.key := node], ns + [node])
  {
  }

  lemma IndexedRemove<K(0), V(0)>(table: map<K, Node<K, V>>, ns: seq<Node<K, V>>, i: nat)
    requires Indexed(table, ns) && Distinct(ns) && i < |ns|
    ensures Indexed(table - {ns[i].key}, ns[..i] + ns[i + 1..])
  {
    var rest := ns[..i] + ns[i + 1..];
    CutAt(ns, i, rest);
    forall k | k in table && k != ns[i].key ensures table[k] in rest {
      var q := Find(ns, table[k]);
      FindIn(ns, table[k]);
      assert rest[if q < i then q else q - 1] == table[k];
    }
    forall q | 0 <= q < |rest| ensures rest[q].key != ns[i].key {
      assert rest[q] == ns[if q < i then q else q + 1];
    }
  }

  /** The table still indexes the live nodes after they are put in another order. */
  lemma IndexedSame<K(0), V(0)>(table: map<K, Node<K, V>>, ns: seq<Node<K, V>>, ns': seq<Node<K, V>>)
    requires Indexed(table, ns) && forall m :: m in ns' <==> m in ns
    ensures Indexed(table, ns')
  {
    forall q | 0 <= q < |ns'| ensures ns'[q].key in table && table[ns'[q].key] == ns'[q] {
      assert ns'[q] in ns;
    }
  }

  /** Entries laid out along distinct live nodes that the table indexes have distinct keys. */
  lemma KeysDistinct<K(0), V(0)>(table: map<K, Node<K, V>>, ns: seq<Node<K, V>>, es: seq<(K, V)>)
    requires Indexed(table, ns) && Distinct(ns) && |es| == |ns|
    requires forall j :: 0 <= j < |ns| ==> es[j].0 == ns[j].key
    ensures AssocList.DistinctKeys(es)
  {
    forall i, j | 0 <= i < j < |es| ensures es[i].0 != es[j].0 {
      assert table[ns[i].key] == ns[i] && table[ns[j].key] == ns[j];
    }
  }

  /** Entries laid out along the live nodes have distinct keys, and each key of the table
      is found at its node's position. */
  lemma KeysAlong<K(0), V(0)>(table: map<K, Node<K, V>>, ns: seq<Node<K, V>>, es: seq<(K, V)>, k: K)
    requires Indexed(table, ns) && Distinct(ns) && |es| == |ns|
    requires forall j :: 0 <= j < |ns| ==> es[j].0 == ns[j].key
    ensures AssocList.DistinctKeys(es)
    ensures k in table <==> AssocList.IndexOf(es, k) < |es|
    ensures k in table ==> AssocList.IndexOf(es, k) == Find(ns, table[k])
  {
    KeysDistinct(table, ns, es);
    if k in table {
      FindIn(ns, table[k]);
      AssocList.IndexOfDistinct(es, Find(ns, table[k]));
    }
  }

  class OrderedMap<K(==,0), V(0)> {
    var table: map<K, Node<K, V>>
    const root: Node<K, V>
    /** The live nodes in ring order, oldest first. */
    ghost var nodes: seq<Node<K, V>>
    /** The unlinked nodes in order of removal, each with the links it kept. */
    ghost var graves: seq<Grave<Node<K, V>>>

    ghost function Shape(): Ring<Node<K, V>>
      reads this
    {
      Ring(nodes, graves)
    }

    /** The map's entries, oldest first. */
    ghost function Entries(): seq<(K, V)>
      reads this, nodes`value
    {
      Pairs(nodes)
    }

    ghost predicate Valid()
      reads this, root`next, root`prev, nodes`next, nodes`prev
      reads Buried(graves)`next, Buried(graves)`prev
    {
      && WF(Shape())
      && root !in nodes && root !in Buried(graves)
      && Indexed(table, nodes)
      && Linked(root, nodes, graves)
    }

    /** NewOrderedMap: an empty map whose sentinel links to itself. */
    constructor ()
      ensures Valid() && fresh(root)
      ensures table == map[] && root.next == root && root.prev == root
      ensures Entries() == [] && graves == []
    {
      root := new Node<K, V>.Blank();
      table := map[];
      nodes := [];
      graves := [];
      new;
      root.next := root;
      root.prev := root;
    }

    /** The entries have distinct keys, and a key's entry sits where its node does. */
    lemma EntryIndex(k: K)
      requires Valid()
      ensures AssocList.DistinctKeys(Entries())
      ensures k in table <==> AssocList.IndexOf(Entries(), k) < |Entries()|
      ensures k in table ==> AssocList.IndexOf(Entries(), k) == Find(nodes, table[k])
    {
      KeysAlong(table, nodes, Entries(), k);
    }

    /** No key has two entries. */
    lemma EntriesDistinct()
      requires Valid()
      ensures AssocList.DistinctKeys(Entries())
    {
      KeysDistinct(table, nodes, Entries());
    }

    lemma Empty()
      requires Valid()
      ensures |table| == 0 <==> nodes == []
    {
      if nodes != [] {
        assert nodes[0].key in table;
      }
      if |table| != 0 {
        var k :| k in table;
      }
    }

    /** Len: the size of the table, which is the number of entries. */
    function Len(): (n: int)
      requires Valid()
      reads this, root, nodes, Buried(graves)
      ensures n == |Entries()|
    {
      TableSize();
      |table|
    }

    /** The table has one key per entry of the ring. */
    lemma TableSize()
      requires Valid()
      ensures |table| == |Entries()|
    {
      EntriesDistinct();
      var es := Entries();
      AssocList.KeyCount(es);
      assert table.Keys == set p | p in es :: p.0 by {
        forall k | k in table ensures k in set p | p in es :: p.0 {
          FindIn(nodes, table[k]);
          assert es[Find(nodes, table[k])] in es;
        }
      }
    }

    /** Get: the value of a present key. */
    function Get(key: K): (r: Option<V>)
      requires Valid()
      reads this, root, nodes, Buried(graves)
      ensures r == AssocList.Lookup(Entries(), key)
    {
      EntryIndex(key);
      if key in table then Some(table[key].value) else None
    }

    /** GetLast: the newest entry, read through the sentinel's prev link. */
    function GetLast(): (r: Option<(K, V)>)
      requires Valid()
      reads this, root, nodes, Buried(graves)
      ensures r == AssocList.Last(Entries())
    {
      Empty();
      if |table| == 0 then None else Some((root.prev.key, root.prev.value))
    }

    /** GetFirst: the oldest entry, read through the sentinel's next link. */
    function GetFirst(): (r: Option<(K, V)>)
      requires Valid()
      reads this, root, nodes, Buried(graves)
      ensures r == AssocList.First(Entries())
    {
      Empty();
      if |table| == 0 then None else Some((root.next.key, root.next.value))
    }

    /** Overwriting the value of a present key keeps the map valid and changes that entry
        alone. */
    twostate lemma ValueWritten(new key: K, new value: V)
      requires old(Valid()) && key in old(table)
      requires table == old(table) && nodes == old(nodes) && graves == old(graves)
      requires table[key].value == value
      requires forall m: Node<K, V> :: old(allocated(m)) ==> m.next == old(m.next) && m.prev == old(m.prev)
      requires forall n: Node<K, V> :: old(allocated(n)) && n != table[key] ==> n.value == old(n.value)
      ensures Valid() && Shape() == old(Shape())
      ensures Entries() == AssocList.Put(old(Entries()), key, value)
    {
      var node := table[key];
      var i := Find(nodes, node);
      FindIn(nodes, node);
      var es := old(Entries());
      forall j | 0 <= j < |nodes| && j != i ensures nodes[j] != node {
        assert nodes[j] != nodes[i];
      }
      assert Entries() == es[i := (key, value)];
      KeysAlong(table, nodes, es, key);
    }

    /** Linking a fresh node in just before the sentinel keeps the map valid and puts the
        node at the newest end of the ring. */
    twostate lemma LinkedIn(new node: Node<K, V>, new last: Node<K, V>)
      requires old(Valid()) && !old(allocated(node)) && node.key !in old(table)
      requires table == old(table)[node.key := node] && nodes == old(nodes) + [node]
      requires graves == old(graves) && last == old(root.prev)
      requires node.next == root && node.prev == last && root.prev == node && last.next == node
      requires last != root ==> root.next == old(root.next) && last.prev == old(last.prev)
      requires forall m: Node<K, V> :: old(allocated(m)) && m != root && m != last ==>
                 m.next == old(m.next) && m.prev == old(m.prev)
      ensures Valid() && Shape() == Append(old(Shape()), node)
    {
      AppendWF(old(Shape()), node);
      IndexedAppend(old(table), old(nodes), node);
      LinkedAppend(root, old(nodes), graves, last, node);
    }

    /** A fresh node holding an absent key, added at the newest end, adds its entry there. */
    twostate lemma EntryAppended(new node: Node<K, V>, new key: K, new value: V)
      requires old(Valid()) && key !in old(table)
      requires node.key == key && node.value == value && nodes == old(nodes) + [node]
      requires forall m: Node<K, V> :: old(allocated(m)) ==> m.value == old(m.value)
      ensures Entries() == AssocList.Put(old(Entries()), key, value)
    {
      var ns := old(nodes);
      assert nodes[..|ns|] == ns;
      assert Pairs(ns) == old(Entries());
    }

    /** The neighbours of the i-th live node are other live nodes or the sentinel. */
    lemma Around(i: nat)
      requires Valid() && i < |nodes|
      ensures nodes[i].next == Target(root, NextLink(nodes, i)) != nodes[i]
      ensures nodes[i].prev == Target(root, PrevLink(nodes, i)) != nodes[i]
      ensures nodes[i].next == root || nodes[i].next in nodes
      ensures nodes[i].prev == root || nodes[i].prev in nodes
    {
      assert i + 1 < |nodes| ==> nodes[i + 1] != nodes[i];
      assert 0 < i ==> nodes[i - 1] != nodes[i];
    }

    /** Unlinking the i-th live node from its neighbours a and b, with its key dropped
        from the table, keeps the map valid, and the ring loses that node as Remove says. */
    twostate lemma Unlinked(new node: Node<K, V>, i: nat, new a: Node<K, V>, new b: Node<K, V>)
      requires old(Valid()) && old(allocated(node)) && old(allocated(a)) && old(allocated(b))
      requires i < |old(nodes)| && node == old(nodes)[i]
      requires a == old(node.next) && b == old(node.prev)
      requires table == old(table) - {node.key}
      requires nodes == old(nodes)[..i] + old(nodes)[i + 1..]
      requires graves == old(graves) + [Grave(node, NextLink(old(nodes), i), PrevLink(old(nodes), i))]
      requires a.prev == b && b.next == a
      requires a != b ==> a.next == old(a.next) && b.prev == old(b.prev)
      requires forall m: Node<K, V> :: old(allocated(m)) && m != a && m != b ==>
                 m.next == old(m.next) && m.prev == old(m.prev)
      ensures Valid() && Shape() == Remove(old(Shape()), i)
    {
      var ns, gs := old(nodes), old(graves);
      assert a == Target(root, NextLink(ns, i)) && b == Target(root, PrevLink(ns, i));
      RemoveWF(old(Shape()), i);
      IndexedRemove(old(table), ns, i);
      LinkedRemove(root, ns, gs, i, a, b);
      assert root !in nodes by {
        RestFacts(ns, i);
      }
    }

    /** Dropping the i-th live node from the ring drops its entry. */
    twostate lemma EntryRemoved(new node: Node<K, V>, i: nat)
      requires old(Valid()) && i < |old(nodes)| && node == old(nodes)[i]
      requires nodes == old(nodes)[..i] + old(nodes)[i + 1..]
      requires forall m: Node<K, V> :: old(allocated(m)) ==> m.value == old(m.value)
      ensures Entries() == AssocList.Remove(old(Entries()), node.key)
    {
      var ns, es := old(nodes), old(Entries());
      KeysAlong(old(table), ns, es, node.key);
      FindDistinct(ns, i);
      CutAt(ns, i, nodes);
      CutAt(es, i, es[..i] + es[i + 1..]);
      assert Entries() == es[..i] + es[i + 1..];
    }

    /** The whole effect of unlinking the i-th live node from its neighbours a and b. */
    twostate lemma Deleted(new node: Node<K, V>, i: nat, new a: Node<K, V>, new b: Node<K, V>)
      requires old(Valid()) && old(allocated(node)) && old(allocated(a)) && old(allocated(b))
      requires i < |old(nodes)| && node == old(nodes)[i]
      requires a == old(node.next) && b == old(node.prev)
      requires table == old(table) - {node.key}
      requires nodes == old(nodes)[..i] + old(nodes)[i + 1..]
      requires graves == old(graves) + [Grave(node, NextLink(old(nodes), i), PrevLink(old(nodes), i))]
      requires a.prev == b && b.next == a
      requires a != b ==> a.next == old(a.next) && b.prev == old(b.prev)
      requires forall m: Node<K, V> :: old(allocated(m)) && m != a && m != b ==>
                 m.next == old(m.next) && m.prev == old(m.prev)
      requires forall m: Node<K, V> :: old(allocated(m)) ==> m.value == old(m.value)
      ensures Valid() && Shape() == Remove(old(Shape()), i)
      ensures Entries() == AssocList.Remove(old(Entries()), node.key)
    {
      EntryRemoved(node, i);
      Unlinked(node, i, a, b);
    }

    /** Delete: the node of a present key is unlinked from its neighbours and its key
        dropped; the node keeps its own links. An absent key changes nothing. */
    method Delete(key: K)
      requires Valid()
      modifies this, root, nodes
      ensures Valid()
      ensures Entries() == AssocList.Remove(old(Entries()), key)
      ensures key !in old(table) ==>
        table == old(table) && Shape() == old(Shape()) && Entries() == old(Entries())
      ensures key in old(table) ==>
        table == old(table) - {key} && Shape() == Remove(old(Shape()), Find(old(nodes), old(table)[key]))
      ensures key in old(table) ==> old(table)[key].value == old(table[key].value)
    {
      if key in table {
        var node := table[key];
        FindIn(nodes, node);
        Drop(node, Find(nodes, node));
      } else {
        EntryIndex(key);
      }
    }

    /** The i-th live node is unlinked from its neighbours and its key leaves the table. */
    method Drop(node: Node<K, V>, ghost i: nat)
      requires Valid() && i < |nodes| && node == nodes[i]
      modifies this, node.next, node.prev
      ensures Valid() && Shape() == Remove(old(Shape()), i)
      ensures Entries() == AssocList.Remove(old(Entries()), node.key)
      ensures table == old(table) - {node.key}
    {
      Around(i);
      ghost var a, b := node.next, node.prev;
      node.next.prev := node.prev;
      node.prev.next := node.next;
      assert a.prev == b && b.next == a;
      assert a != b ==> a.next == old(a.next) && b.prev == old(b.prev);
      table := table - {node.key};
      graves := graves + [Grave(node, NextLink(nodes, i), PrevLink(nodes, i))];
      nodes := nodes[..i] + nodes[i + 1..];
      Deleted(node, i, a, b);
    }

    /** The key of the entry at position i is held by the i-th live node. */
    lemma KeyAt(i: nat)
      requires Valid() && i < |nodes|
      ensures Entries()[i].0 == nodes[i].key && nodes[i].key in table
      ensures Find(nodes, table[nodes[i].key]) == i
    {
      FindDistinct(nodes, i);
    }

    /** Pop: the newest (last) or oldest entry is looked up and then deleted. */
    method Pop(last: bool) returns (r: Option<(K, V)>)
      requires Valid()
      modifies this, root, nodes
      ensures Valid()
      ensures (r, Entries()) == AssocList.Pop(old(Entries()), last)
      ensures r.None? ==> old(nodes) == [] && Shape() == old(Shape())
      ensures r.Some? ==>
        old(nodes) != [] && Shape() == Remove(old(Shape()), if last then |old(nodes)| - 1 else 0)
      ensures r.Some? ==>
        var n := old(nodes)[if last then |old(nodes)| - 1 else 0];
        n.value == old(n.value) == r.value.1
    {
      r := if last then GetLast() else GetFirst();
      if r.Some? {
        KeyAt(if last then |nodes| - 1 else 0);
        Delete(r.value.0);
      }
    }

    method PopLast() returns (r: Option<(K, V)>)
      requires Valid()
      modifies this, root, nodes
      ensures Valid()
      ensures (r, Entries()) == AssocList.Pop(old(Entries()), true)
      ensures r.None? ==> old(nodes) == [] && Shape() == old(Shape())
      ensures r.Some? ==> old(nodes) != [] && Shape() == Remove(old(Shape()), |old(nodes)| - 1)
      ensures r.Some? ==>
        var n := old(nodes)[|old(nodes)| - 1]; n.value == old(n.value) == r.value.1
    {
      r := Pop(true);
    }

    method PopFirst() returns (r: Option<(K, V)>)
      requires Valid()
      modifies this, root, nodes
      ensures Valid()
      ensures (r, Entries()) == AssocList.Pop(old(Entries()), false)
      ensures r.None? ==> old(nodes) == [] && Shape() == old(Shape())
      ensures r.Some? ==> old(nodes) != [] && Shape() == Remove(old(Shape()), 0)
      ensures r.Some? ==>
        var n := old(nodes)[0]; n.value == old(n.value) == r.value.1
    {
      r := Pop(false);
    }

    /** Move, first half: the i-th live node is unlinked from its neighbours a and b, and
        the rest of the ring is linked without it; no grave is recorded, since the node
        is linked in again at once. */
    twostate lemma Detached(new node: Node<K, V>, i: nat, new a: Node<K, V>, new b: Node<K, V>)
      requires old(Valid()) && old(allocated(node)) && old(allocated(a)) && old(allocated(b))
      requires i < |old(nodes)| && node == old(nodes)[i]
      requires a == old(node.next) && b == old(node.prev)
      requires nodes == old(nodes) && graves == old(graves)
      requires a.prev == b && b.next == a
      requires a != b ==> a.next == old(a.next) && b.prev == old(b.prev)
      requires forall m: Node<K, V> :: old(allocated(m)) && m != a && m != b ==>
                 m.next == old(m.next) && m.prev == old(m.prev)
      ensures var rest := nodes[..i] + nodes[i + 1..];
        && Linked(root, rest, graves)
        && Distinct(rest) && Apart(rest, graves)
        && root !in rest && node !in rest && node !in Buried(graves)
        && (forall m :: m in rest <==> m in nodes && m != node)
    {
      var ns := nodes;
      assert a == Target(root, NextLink(ns, i)) && b == Target(root, PrevLink(ns, i));
      RestFacts(ns, i);
      LinkedDetach(root, ns, graves, i, a, b);
    }

    /** Move, second half: once the moved node is linked in at the requested end, the map
        is valid again, its ring is Relink of the old one and its entries are Move of the
        old ones. */
    twostate lemma Relinked(new node: Node<K, V>, i: nat, new last: bool)
      requires old(Valid()) && i < |old(nodes)| && node == old(nodes)[i]
      requires table == old(table) && graves == old(graves)
      requires var rest := old(nodes)[..i] + old(nodes)[i + 1..];
        nodes == if last then rest + [node] else [node] + rest
      requires Linked(root, nodes, graves)
      requires forall m: Node<K, V> :: old(allocated(m)) ==> m.value == old(m.value)
      ensures Valid() && Shape() == Relink(old(Shape()), i, last)
      ensures Entries() == AssocList.Move(old(Entries()), node.key, last)
    {
      RelinkOrder(old(Shape()), i, last);
      RelinkWF(old(Shape()), i, last);
      IndexedSame(table, old(nodes), nodes);
      EntryMoved(node, i, last);
    }

    twostate lemma EntryMoved(new node: Node<K, V>, i: nat, new last: bool)
      requires old(Valid()) && i < |old(nodes)| && node == old(nodes)[i]
      requires nodes == Relink(old(Shape()), i, last).order
      requires forall m: Node<K, V> :: old(allocated(m)) ==> m.value == old(m.value)
      ensures Entries() == AssocList.Move(old(Entries()), node.key, last)
    {
      var ns := old(nodes);
      KeysAlong(old(table), ns, old(Entries()), node.key);
      FindDistinct(ns, i);
      RelinkOrder(old(Shape()), i, last);
      if last {
        PairsToBack(ns, i, nodes);
      } else {
        PairsToFront(ns, i, nodes);
      }
    }

    /** Takes the i-th live node out of the ring, leaving the bookkeeping of this map to the caller. */
    method Unlink(node: Node<K, V>, ghost i: nat)
      requires Valid() && i < |nodes| && node == nodes[i]
      modifies node.next, node.prev
      ensures var rest := nodes[..i] + nodes[i + 1..];
        && Linked(root, rest, graves)
        && Distinct(rest) && Apart(rest, graves)
        && root !in rest && node !in rest && node !in Buried(graves) && node != root
      ensures forall m: Node<K, V> :: old(allocated(m)) ==> m.value == old(m.value)
    {
      Around(i);
      ghost var a, b := node.next, node.prev;
      node.next.prev := node.prev;
      node.prev.next := node.next;
      Detached(node, i, a, b);
    }

    /** Links a node that is in no ring back in, as the newest (last) or the oldest entry. */
    method Link(node: Node<K, V>, last: bool, ghost rest: seq<Node<K, V>>)
      requires Linked(root, rest, graves) && Distinct(rest) && Apart(rest, graves)
      requires root !in rest && root !in Buried(graves) && node !in rest && node !in Buried(graves) && node != root
      modifies this, root, node, if last then root.prev else root.next
      ensures nodes == if last then rest + [node] else [node] + rest
      ensures Linked(root, nodes, graves) && table == old(table) && graves == old(graves)
      ensures forall m: Node<K, V> :: old(allocated(m)) ==> m.value == old(m.value)
    {
      if last {
        var tail := root.prev;
        node.next := root;
        node.prev := root.prev;
        root.prev.next := node;
        root.prev := node;
        LinkedAppend(root, rest, graves, tail, node);
      } else {
        var head := root.next;
        node.prev := root;
        node.next := root.next;
        root.next.prev := node;
        root.next := node;
        LinkedPrepend(root, rest, graves, head, node);
      }
      nodes := if last then rest + [node] else [node] + rest;
    }

    /** The i-th live node is unlinked and linked in again at the requested end. */
    method Relocate(node: Node<K, V>, ghost i: nat, last: bool)
      requires Valid() && i < |nodes| && node == nodes[i]
      modifies this, root, nodes
      ensures Valid() && Shape() == Relink(old(Shape()), i, last)
      ensures Entries() == AssocList.Move(old(Entries()), node.key, last)
      ensures table == old(table)
    {
      Unlink(node, i);
      Link(node, last, nodes[..i] + nodes[i + 1..]);
      Relinked(node, i, last);
    }

    /** Move: the node of a present key is unlinked from its neighbours and linked in
        again just before the sentinel (last) or just after it; no other node changes
        place and no value changes. An absent key changes nothing. */
    method Move(key: K, last: bool) returns (ok: bool)
      requires Valid()
      modifies this, root, nodes
      ensures Valid() && ok == (key in old(table))
      ensures Entries() == AssocList.Move(old(Entries()), key, last)
      ensures table == old(table) && graves == old(graves)
      ensures !ok ==> Shape() == old(Shape())
      ensures ok ==> Shape() == Relink(old(Shape()), Find(old(nodes), old(table)[key]), last)
    {
      if key !in table {
        EntryIndex(key);
        return false;
      }
      var node := table[key];
      FindIn(nodes, node);
      Relocate(node, Find(nodes, node), last);
      ok := true;
    }

    method MoveLast(key: K) returns (ok: bool)
      requires Valid()
      modifies this, root, nodes
      ensures Valid() && ok == (key in old(table))
      ensures Entries() == AssocList.Move(old(Entries()), key, true)
      ensures table == old(table) && graves == old(graves)
      ensures !ok ==> Shape() == old(Shape())
      ensures ok ==> Shape() == Relink(old(Shape()), Find(old(nodes), old(table)[key]), true)
    {
      ok := Move(key, true);
    }

    method MoveFirst(key: K) returns (ok: bool)
      requires Valid()
      modifies this, root, nodes
      ensures Valid() && ok == (key in old(table))
      ensures Entries() == AssocList.Move(old(Entries()), key, false)
      ensures table == old(table) && graves == old(graves)
      ensures !ok ==> Shape() == old(Shape())
      ensures ok ==> Shape() == Relink(old(Shape()), Find(old(nodes), old(table)[key]), false)
    {
      ok := Move(key, false);
    }

    /** Set: a new key is linked in just before the sentinel; the value of a present key
        is overwritten and its node keeps its place. */
    method Set(key: K, value: V)
      requires Valid()
      modifies this, root, nodes
      ensures Valid()
      ensures Entries() == AssocList.Put(old(Entries()), key, value)
      ensures key in old(table) ==> table == old(table) && Shape() == old(Shape())
      ensures key !in old(table) ==>
        key in table && fresh(table[key]) && Shape() == Append(old(Shape()), table[key])
    {
      if key !in table {
        ghost var last := root.prev;
        var node := new Node(key, value, root, root.prev);
        root.prev.next := node;
        root.prev := node;
        table := table[key := node];
        nodes := nodes + [node];
        LinkedIn(node, last);
        EntryAppended(node, key, value);
      } else {
        var node := table[key];
        node.value := value;
        ValueWritten(key, value);
      }
    }

    /** Iter: a forward iterator parked on the sentinel; a full pass meets every live node,
        oldest first. */
    method Iter() returns (it: MapIterator<K, V>)
      requires Valid()
      ensures fresh(it) && !it.reverse && it.ValidFor(this) && it.curr == root
      ensures it.Pending(this) == nodes
    {
      it := new MapIterator(root, false);
      it.Begins(this);
    }

    /** IterReverse: the same, walking prev links, so a full pass meets the newest first. */
    method IterReverse() returns (it: MapIterator<K, V>)
      requires Valid()
      ensures fresh(it) && it.reverse && it.ValidFor(this) && it.curr == root
      ensures it.Pending(this) == Reverse(nodes)
    {
      it := new MapIterator(root, true);
      it.Begins(this);
    }

    /** The walk in String: a forward pass fills the Len() slots of a buffer in order, one
        entry per step; the pass fills every slot, with the entries oldest first. */
    method Listing() returns (buffer: seq<(K, V)>)
      requires Valid()
      ensures buffer == Entries()
    {
      var it: MapIterator<K, V> := Iter();
      var r := ListFirst(it);
      buffer := ListRest(it, r);
    }

    /** Listing's first step: a fresh forward iterator meets the oldest entry, if any. */
    method ListFirst(it: MapIterator<K, V>) returns (r: Option<(K, V)>)
      requires Valid() && it.root == root && !it.reverse && it.curr == root
      modifies it`curr
      ensures it.ValidFor(this) && Filled([], r, it.curr)
    {
      it.Begins(this);
      ghost var a := it.Pending(this);
      r := it.Next(this);
      FilledStart(a, r, it.curr);
    }

    /** Listing's loop: store each entry met and step on, until the iterator runs out. */
    method ListRest(it: MapIterator<K, V>, r: Option<(K, V)>) returns (buffer: seq<(K, V)>)
      requires it.ValidFor(this) && !it.reverse && Filled([], r, it.curr)
      modifies it`curr
      ensures buffer == Entries()
    {
      buffer := [];
      var r := r;
      while r.Some?
        invariant it.ValidFor(this) && !it.reverse && Filled(buffer, r, it.curr)
        decreases |nodes| - |buffer|
      {
        buffer, r := Fill(it, buffer, r);
      }
      FilledEnd(buffer, it.curr);
    }

    /** One turn of Listing's loop: store the entry just met, then step the iterator. */
    method Fill(it: MapIterator<K, V>, buffer: seq<(K, V)>, r: Option<(K, V)>)
      returns (buffer': seq<(K, V)>, r': Option<(K, V)>)
      requires it.ValidFor(this) && !it.reverse && Filled(buffer, r, it.curr) && r.Some?
      modifies it`curr
      ensures it.ValidFor(this) && Filled(buffer', r', it.curr) && |buffer'| == |buffer| + 1
    {
      PendingAfter(it, |buffer|);
      ghost var a, c := it.Pending(this), it.curr;
      buffer' := buffer + [r.value];
      r' := it.Next(this);
      FilledStep(buffer, r, c, a, r', it.curr);
    }

    /** Listing's loop invariant: the buffer holds the first entries, and r is the next one,
        on the node the iterator stands on, or None once all are in. */
    ghost predicate Filled(buffer: seq<(K, V)>, r: Option<(K, V)>, curr: Node?<K, V>)
      reads this, nodes`value
    {
      && |buffer| <= |nodes|
      && (forall q :: 0 <= q < |buffer| ==> buffer[q] == (nodes[q].key, nodes[q].value))
      && (r.Some? ==> |buffer| < |nodes| && curr == nodes[|buffer|]
                      && r.value == (nodes[|buffer|].key, nodes[|buffer|].value))
      && (r.None? ==> |buffer| == |nodes|)
    }

    lemma FilledStart(a: seq<Node<K, V>>, r: Option<(K, V)>, curr: Node?<K, V>)
      requires a == nodes
      requires a == [] ==> r == None
      requires a != [] ==> r == Some((a[0].key, a[0].value)) && curr == a[0]
      ensures Filled([], r, curr)
    {
    }

    lemma FilledEnd(buffer: seq<(K, V)>, curr: Node?<K, V>)
      requires Filled(buffer, None, curr)
      ensures buffer == Entries()
    {
    }

    lemma FilledStep(before: seq<(K, V)>, r0: Option<(K, V)>, c0: Node?<K, V>,
                     a: seq<Node<K, V>>, r: Option<(K, V)>, curr: Node?<K, V>)
      requires Filled(before, r0, c0) && r0.Some? && a == nodes[|before| + 1..]
      requires a == [] ==> r == None
      requires a != [] ==> r == Some((a[0].key, a[0].value)) && curr == a[0]
      ensures Filled(before + [r0.value], r, curr)
    {
    }

    /** A forward iterator on the i-th live node has the nodes after it still to meet. */
    lemma PendingAfter(it: MapIterator<K, V>, i: nat)
      requires it.ValidFor(this) && !it.reverse && i < |nodes| && it.curr == nodes[i]
      ensures it.Pending(this) == nodes[i + 1..]
    {
      FindDistinct(nodes, i);
    }
  }

  /** The node a cursor that has not finished stands on: the sentinel before the first step. */
  function Holder<K(0), V(0)>(root: Node<K, V>, c: Cursor<Node<K, V>>): Node<K, V>
    requires !c.Done?
  {
    if c.Start? then root else c.node
  }

  /** A forward step follows the next link of the node the cursor stands on. */
  lemma NextFollows<K(0), V(0)>(root: Node<K, V>, r: Ring<Node<K, V>>, c: Cursor<Node<K, V>>)
    requires WF(r) && Linked(root, r.order, r.graves) && Knows(r, c) && !c.Done?
    ensures Holder(root, c).next == Target(root, Follow(r, c))
  {
    if c.At? {
      var o, b := r.order, Buried(r.graves);
      FindIn(o, c.node);
      if c.node in o {
        assert o[Find(o, c.node)].next == Target(root, NextLink(o, Find(o, c.node)));
      } else {
        FindIn(b, c.node);
      }
    }
  }

  /** A reverse step follows the prev link: the next link of the mirrored ring. */
  lemma PrevFollows<K(0), V(0)>(root: Node<K, V>, r: Ring<Node<K, V>>, c: Cursor<Node<K, V>>)
    requires WF(r) && Linked(root, r.order, r.graves) && Knows(r, c) && !c.Done?
    ensures Holder(root, c).prev == Target(root, Follow(Mirror(r), c))
  {
    var o, b := r.order, Buried(r.graves);
    MirrorWF(r);
    ReverseFacts(o);
    if c.At? {
      FindIn(o, c.node);
      if c.node in o {
        var i := Find(o, c.node);
        var k := |o| - 1 - i;
        assert Reverse(o)[k] == c.node;
        FindDistinct(Reverse(o), k);
        assert NextLink(Reverse(o), k) == PrevLink(o, i);
        assert o[i].prev == Target(root, PrevLink(o, i));
      } else {
        FindIn(b, c.node);
      }
    }
  }

  /** MapIterator: a cursor on the ring. curr is the node last returned, the sentinel
      before the first step, and null once the pass has reached the sentinel again. */
  class MapIterator<K(==, 0), V(0)> {
    var curr: Node?<K, V>
    const root: Node<K, V>
    const reverse: bool

    constructor (root: Node<K, V>, reverse: bool)
      ensures this.root == root && this.reverse == reverse && curr == root
    {
      this.root := root;
      this.reverse := reverse;
      curr := root;
    }

    ghost function Cursor(): Cursor<Node<K, V>>
      reads this
    {
      if curr == null then Done else if curr == root then Start else At(curr as Node<K, V>)
    }

    /** The iterator walks the ring of m and stands on the sentinel, on nothing, or on a
        node that is or once was in m; m may have changed in any way since. */
    ghost predicate ValidFor(m: OrderedMap<K, V>)
      reads this, m, m.root`next, m.root`prev, m.nodes`next, m.nodes`prev
      reads Buried(m.graves)`next, Buried(m.graves)`prev
    {
      m.Valid() && root == m.root && Knows(m.Shape(), Cursor())
    }

    /** The nodes the rest of the pass meets if m is left as it is. */
    ghost function Pending(m: OrderedMap<K, V>): seq<Node<K, V>>
      reads this, m
    {
      Remaining(m.Shape(), Cursor(), reverse)
    }

    /** On the sentinel of a valid map, a pass has every live node still to meet. */
    lemma Begins(m: OrderedMap<K, V>)
      requires m.Valid() && root == m.root && curr == root
      ensures ValidFor(m) && Pending(m) == if reverse then Reverse(m.nodes) else m.nodes
    {
      FullPasses(m.Shape());
    }

    /** The link Next follows leads to the first pending node, or to the sentinel when
        nothing is pending. */
    lemma Advances(m: OrderedMap<K, V>)
      requires ValidFor(m) && curr != null
      ensures var n := if reverse then curr.prev else curr.next; var a := Pending(m);
        && n != null
        && (a == [] <==> n == root)
        && (a != [] ==> a[0] == n && Knows(m.Shape(), At(n)) && Remaining(m.Shape(), At(n), reverse) == a[1..])
    {
      var c := Cursor();
      StepRemaining(m.Shape(), c, reverse);
      if reverse {
        PrevFollows(root, m.Shape(), c);
      } else {
        NextFollows(root, m.Shape(), c);
      }
    }

    /** Next: step along the next (or prev) link; reaching the sentinel finishes the pass
        for good. */
    method Next(ghost m: OrderedMap<K, V>) returns (r: Option<(K, V)>)
      requires ValidFor(m)
      modifies this`curr
      ensures ValidFor(m)
      ensures var a := old(Pending(m));
        && (a == [] ==> r == None && curr == null)
        && (a != [] ==> r == Some((a[0].key, a[0].value)) && curr == a[0] && Pending(m) == a[1..])
    {
      if curr == null {
        return None;
      }
      assert m as object != this as object;
      Advances(m);
      var n := if reverse then curr.prev else curr.next;
      curr := if n == root then null else n;
      r := if n == root then None else Some((n.key, n.value));
    }
  }
}
