/** What a pass in progress sees when the map changes under it: an iterator keeps only
    its cursor, so each map operation changes the rest of the pass through the ring alone. */
module Passes {
  import opened Wrappers
  import opened SeqUtil
  import opened RingModel
  import opened Nodes
  import opened OrderedMaps

  /** Set during a pass. Overwriting a present key leaves the rest of the pass as it
      was (the new value is read when its node is met). A new key is met at the end of
      a forward pass unless that pass has already run off the newest end, and by a
      reverse pass only if it has not taken its first step. */
  method SetDuringPass<K(==, 0), V(0)>(m: OrderedMap<K, V>, it: MapIterator<K, V>, key: K, value: V)
    requires it.ValidFor(m)
    modifies m, m.root, m.nodes
    ensures it.ValidFor(m) && m.Entries() == AssocList.Put(old(m.Entries()), key, value)
    ensures key in old(m.table) ==> it.Pending(m) == old(it.Pending(m))
    ensures key !in old(m.table) ==>
      && key in m.table
      && it.Pending(m) == if it.reverse
           then (if it.curr == m.root then [m.table[key]] else []) + old(it.Pending(m))
           else old(it.Pending(m)) + (if Open(old(m.Shape()), it.Cursor()) then [m.table[key]] else [])
  {
    ghost var s, c := m.Shape(), it.Cursor();
    m.Set(key, value);
    if key !in old(m.table) {
      InsertRemaining(s, m.table[key], c, it.reverse);
    }
  }

  /** Deleting the i-th live node, seen by a cursor c of the ring r: the rest of the pass
      loses that node, unless the cursor stands on it, has already met it, or is parked
      on a deleted node due to resume at it. */
  lemma DeleteSeen<N>(r: Ring<N>, i: nat, c: Cursor<N>, reverse: bool)
    requires WF(r) && Knows(r, c) && i < |r.order|
    ensures WF(Remove(r, i)) && Knows(Remove(r, i), c)
    ensures var a, a', x := Remaining(r, c, reverse), Remaining(Remove(r, i), c, reverse), r.order[i];
      && (c == At(x) ==> a' == a)
      && (x !in a ==> a' == a)
      && a' == if Parked(View(r, reverse), c, x) then a else Without(a, x)
  {
    var x := r.order[i];
    DeleteRemaining(r, i, c, reverse);
    if x !in Remaining(r, c, reverse) {
      WithoutAbsent(Remaining(r, c, reverse), x);
    }
    if c == At(x) {
      DeleteUnderCursor(r, i, reverse);
    }
  }

  /** Delete during a pass. A key not yet met leaves the rest of the pass; a key already
      met, or absent, leaves the rest as it was, and so does deleting the node the
      iterator stands on. The one exception: a cursor whose own node was deleted earlier
      and which was due to resume at the node now deleted still meets that node, whose
      links were left as they were. */
  method DeleteDuringPass<K(==, 0), V(0)>(m: OrderedMap<K, V>, it: MapIterator<K, V>, key: K)
    requires it.ValidFor(m)
    modifies m, m.root, m.nodes
    ensures it.ValidFor(m) && m.Entries() == AssocList.Remove(old(m.Entries()), key)
    ensures key !in old(m.table) ==> m.Shape() == old(m.Shape())
    ensures key in old(m.table) ==> m.Shape() == Remove(old(m.Shape()), Find(old(m.nodes), old(m.table[key])))
    ensures key in old(m.table) ==> old(m.table[key]).value == old(m.table[key].value)
    ensures key !in old(m.table) ==> it.Pending(m) == old(it.Pending(m))
    ensures key in old(m.table) ==> var x := old(m.table[key]);
      && (x == it.curr ==> it.Pending(m) == old(it.Pending(m)))
      && (x !in old(it.Pending(m)) ==> it.Pending(m) == old(it.Pending(m)))
      && it.Pending(m) == if Parked(View(old(m.Shape()), it.reverse), it.Cursor(), x)
                          then old(it.Pending(m)) else Without(old(it.Pending(m)), x)
  {
    ghost var s, c := m.Shape(), it.Cursor();
    if key in m.table {
      ghost var node := m.table[key];
      ghost var i := Find(s.order, node);
      FindIn(m.nodes, node);
      m.Delete(key);
      assert it.curr == old(it.curr);
      DeleteSeen(s, i, c, it.reverse);
      assert m.Shape() == Remove(s, i);
      assert it.Cursor() == c;
      assert it.ValidFor(m);
      assert it.Pending(m) == Remaining(Remove(s, i), c, it.reverse);
    } else {
      m.Delete(key);
    }
  }

  /** Move during a pass: the iterator stays valid, since the ring keeps the same live
      nodes and graves. */
  method MoveDuringPass<K(==, 0), V(0)>(m: OrderedMap<K, V>, it: MapIterator<K, V>, key: K, last: bool)
    returns (ok: bool)
    requires it.ValidFor(m)
    modifies m, m.root, m.nodes
    ensures it.ValidFor(m) && ok == (key in old(m.table))
    ensures m.Entries() == AssocList.Move(old(m.Entries()), key, last)
  {
    if key in m.table {
      ghost var c := it.Cursor();
      MovePresent(m, key, last, c);
      StillValid(m, it, c);
      ok := true;
    } else {
      ok := m.Move(key, last);
    }
  }

  /** MoveDuringPass for a present key: the ring is relinked, and a cursor the ring knew
      it still knows. */
  method MovePresent<K(==, 0), V(0)>(m: OrderedMap<K, V>, key: K, last: bool, ghost c: Cursor<Node<K, V>>)
    requires m.Valid() && key in m.table && Knows(m.Shape(), c)
    modifies m, m.root, m.nodes
    ensures m.Valid() && Knows(m.Shape(), c)
    ensures m.Entries() == AssocList.Move(old(m.Entries()), key, last)
  {
    ghost var s := m.Shape();
    ghost var i := Find(m.nodes, m.table[key]);
    FindIn(m.nodes, m.table[key]);
    RelinkKnows(s, i, last, c);
    var ok := m.Move(key, last);
  }

  /** A cursor the map's ring still knows leaves the iterator valid for the map. */
  lemma StillValid<K(0), V(0)>(m: OrderedMap<K, V>, it: MapIterator<K, V>, c: Cursor<Node<K, V>>)
    requires m.Valid() && it.root == m.root && it.Cursor() == c && Knows(m.Shape(), c)
    ensures it.ValidFor(m)
  {
  }

  /** Relinking a live node leaves every cursor of the ring known to it. */
  lemma RelinkKnows<N>(r: Ring<N>, i: nat, last: bool, c: Cursor<N>)
    requires WF(r) && Knows(r, c) && i < |r.order|
    ensures WF(Relink(r, i, last)) && Knows(Relink(r, i, last), c)
  {
    RelinkWF(r, i, last);
  }

  /** Pop during a pass: the iterator stays valid, since the popped node becomes a grave. */
  method PopDuringPass<K(==, 0), V(0)>(m: OrderedMap<K, V>, it: MapIterator<K, V>, last: bool)
    returns (r: Option<(K, V)>)
    requires it.ValidFor(m)
    modifies m, m.root, m.nodes
    ensures it.ValidFor(m) && (r, m.Entries()) == AssocList.Pop(old(m.Entries()), last)
    ensures r.Some? ==>
      && old(m.nodes) != []
      && var n := old(m.nodes)[if last then |old(m.nodes)| - 1 else 0];
         n.value == old(n.value) == r.value.1
  {
    ghost var s := m.Shape();
    r := m.Pop(last);
    if r.Some? {
      RemoveWF(s, if last then |s.order| - 1 else 0);
    }
  }

  /** A pass that has finished stays finished: whatever is set in between, the next
      step meets nothing and leaves the iterator finished. */
  method NextAfterEnd<K(==, 0), V(0)>(m: OrderedMap<K, V>, it: MapIterator<K, V>, key: K, value: V)
    returns (r: Option<(K, V)>)
    requires it.ValidFor(m) && it.curr == null
    modifies m, m.root, m.nodes, it`curr
    ensures it.ValidFor(m) && r == None && it.curr == null
  {
    SetDuringPass(m, it, key, value);
    r := it.Next(m);
  }

  /** A forward pass that deletes each key as it meets it: every entry is met, oldest
      first, and the map ends empty. */
  method DeleteEachMet<K(==, 0), V(0)>(m: OrderedMap<K, V>) returns (met: seq<(K, V)>)
    requires m.Valid()
    modifies m, m.root, m.nodes
    ensures m.Valid() && m.Entries() == [] && met == old(m.Entries())
  {
    ghost var es, ns := m.Entries(), m.nodes;
    var it, r := StartClearing(m);
    met := [];
    while r.Some?
      invariant Clearing(m, it, es, met, r)
      invariant forall n :: n in m.nodes ==> n in ns
      decreases |m.nodes|
    {
      met, r := ClearStep(m, it, es, met, r);
    }
  }

  /** DeleteEachMet's loop state: what is met so far followed by what is left makes up
      the entries at the start; the iterator stands on the oldest node left, with the
      entry just met, and the rest of the nodes still to meet. */
  ghost predicate Clearing<K(0), V(0)>(m: OrderedMap<K, V>, it: MapIterator<K, V>,
                                      es: seq<(K, V)>, met: seq<(K, V)>, r: Option<(K, V)>)
    reads m, it, m.root, m.nodes, Buried(m.graves)
  {
    && it.ValidFor(m) && !it.reverse
    && es == met + m.Entries()
    && (r.None? ==> m.nodes == [])
    && (r.Some? ==> m.nodes != [] && it.curr == m.nodes[0] && r.value == m.Entries()[0]
                    && it.Pending(m) == m.nodes[1..])
  }

  /** The first step of DeleteEachMet's pass, on a fresh forward iterator. */
  method StartClearing<K(==, 0), V(0)>(m: OrderedMap<K, V>) returns (it: MapIterator<K, V>, r: Option<(K, V)>)
    requires m.Valid()
    ensures fresh(it) && Clearing(m, it, m.Entries(), [], r)
  {
    it := m.Iter();
    r := m.ListFirst(it);
    ClearingStart(m, it, r);
  }

  /** After the first step of a forward pass nothing is met yet and nothing is deleted. */
  lemma ClearingStart<K(0), V(0)>(m: OrderedMap<K, V>, it: MapIterator<K, V>, r: Option<(K, V)>)
    requires it.ValidFor(m) && !it.reverse && m.Filled([], r, it.curr)
    ensures Clearing(m, it, m.Entries(), [], r)
  {
    assert m.Entries() == [] + m.Entries();
    if r.Some? {
      m.PendingAfter(it, 0);
      assert r.value == m.Entries()[0];
    }
  }

  /** Deleting the oldest key while the iterator stands on its node: the node leaves the
      ring and the rest of the pass is every node left. */
  method DeleteOldest<K(==, 0), V(0)>(m: OrderedMap<K, V>, it: MapIterator<K, V>, key: K)
    requires it.ValidFor(m) && m.nodes != [] && it.curr == m.nodes[0] && key == m.nodes[0].key
    requires it.Pending(m) == m.nodes[1..]
    modifies m, m.root, m.nodes
    ensures it.ValidFor(m) && it.Pending(m) == m.nodes
    ensures m.nodes == old(m.nodes[1..]) && m.Entries() == old(m.Entries()[1..])
  {
    m.KeyAt(0);
    m.EntryIndex(key);
    ghost var e, o := m.Entries(), m.nodes;
    assert AssocList.Remove(e, key) == e[1..] by {
      assert e[..0] + e[1..] == e[1..];
    }
    assert Remove(m.Shape(), 0).order == o[1..] by {
      assert o[..0] + o[1..] == o[1..];
    }
    DeleteDuringPass(m, it, key);
  }

  /** One turn of DeleteEachMet's loop: keep the entry met, delete its key, step on. */
  method ClearStep<K(==, 0), V(0)>(m: OrderedMap<K, V>, it: MapIterator<K, V>, ghost es: seq<(K, V)>,
                                   met: seq<(K, V)>, r: Option<(K, V)>)
    returns (met': seq<(K, V)>, r': Option<(K, V)>)
    requires Clearing(m, it, es, met, r) && r.Some?
    modifies m, m.root, m.nodes, it`curr
    ensures Clearing(m, it, es, met', r')
    ensures |m.nodes| < old(|m.nodes|) && forall n :: n in m.nodes ==> n in old(m.nodes)
  {
    met' := met + [r.value];
    ghost var e := m.Entries();
    DeleteOldest(m, it, r.value.0);
    Shift(es, met, e);
    ghost var a := it.Pending(m);
    r' := it.Next(m);
    ClearingAfter(m, it, es, met', r', a);
  }

  /** Moving the first entry left from what is left to what is met. */
  lemma Shift<T>(es: seq<T>, met: seq<T>, left: seq<T>)
    requires es == met + left && left != []
    ensures es == (met + [left[0]]) + left[1..]
  {
    assert left == [left[0]] + left[1..];
  }

  /** Clearing again after a step of the iterator that had a still to meet. */
  lemma ClearingAfter<K(0), V(0)>(m: OrderedMap<K, V>, it: MapIterator<K, V>, es: seq<(K, V)>,
                                  met: seq<(K, V)>, r: Option<(K, V)>, a: seq<Node<K, V>>)
    requires it.ValidFor(m) && !it.reverse && es == met + m.Entries() && a == m.nodes
    requires a == [] ==> r == None
    requires a != [] ==> r == Some((a[0].key, a[0].value)) && it.curr == a[0] && it.Pending(m) == a[1..]
    ensures Clearing(m, it, es, met, r)
  {
  }
}
