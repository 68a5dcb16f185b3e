/** Value-level model of the ring that the map's nodes form, and of what an iterator
    parked anywhere on it will still visit.

    A Ring records the live nodes in ring order (oldest first; the sentinel is implicit)
    and the "graves": every node unlinked so far, in the order it was unlinked, with the
    two links it kept. Unlinking never rewrites the removed node's own links, so a grave's
    links are exactly the neighbours the node had when it left the ring. When a grave's
    neighbour leaves the ring later, it is a later grave; this is what makes a cursor on a
    removed node always reach the live ring or the sentinel in finitely many steps. */
module RingModel {
  import opened Wrappers
  import opened SeqUtil

  /** Where a link leads: the sentinel, or a node. */
  datatype Link<N> = Root | To(node: N)

  datatype Grave<N> = Grave(node: N, next: Link<N>, prev: Link<N>)

  datatype Ring<N> = Ring(order: seq<N>, graves: seq<Grave<N>>)

  /** An iterator's position: finished (nil), on the sentinel, or on a node. */
  datatype Cursor<N> = Done | Start | At(node: N)

  /** What a forward walk meets: removed nodes it still passes through (stale), then,
      when it re-enters the live ring, the live nodes from index resume on. */
  datatype Trail<N> = Trail(stale: seq<N>, resume: Option<nat>)

  function Buried<N>(gs: seq<Grave<N>>): seq<N>
  {
    seq(|gs|, i requires 0 <= i < |gs| => gs[i].node)
  }

  /** A grave's link may lead to the sentinel, a live node, or a node removed later. */
  predicate Points<N(==)>(r: Ring<N>, j: nat, l: Link<N>)
    requires j < |r.graves|
  {
    l.To? ==> l.node in r.order || l.node in Buried(r.graves)[j + 1..]
  }

  predicate WF<N(==)>(r: Ring<N>)
  {
    && Distinct(r.order)
    && Distinct(Buried(r.graves))
    && (forall n :: n in r.order ==> n !in Buried(r.graves))
    && (forall j :: 0 <= j < |r.graves| ==>
          Points(r, j, r.graves[j].next) && Points(r, j, r.graves[j].prev))
  }

  /** A cursor on a node that the ring knows about, live or removed. */
  predicate Knows<N(==)>(r: Ring<N>, c: Cursor<N>)
  {
    c.At? ==> c.node in r.order || c.node in Buried(r.graves)
  }

  /** A node never seen by the ring, as a freshly allocated one is. */
  predicate Unseen<N(==)>(r: Ring<N>, n: N)
  {
    n !in r.order && n !in Buried(r.graves)
  }

  // ---------------------------------------------------------------------------
  // The operations of the map, on the ring

  function NextLink<N>(s: seq<N>, i: nat): Link<N>
  {
    if i + 1 < |s| then To(s[i + 1]) else Root
  }

  function PrevLink<N>(s: seq<N>, i: nat): Link<N>
    requires i <= |s|
  {
    if 0 < i then To(s[i - 1]) else Root
  }

  /** Set of a new key: link a node just before the sentinel. */
  function Append<N>(r: Ring<N>, n: N): Ring<N>
  {
    Ring(r.order + [n], r.graves)
  }

  /** Link a node just after the sentinel (Append as seen by a reverse walk). */
  function Prepend<N>(r: Ring<N>, n: N): Ring<N>
  {
    Ring([n] + r.order, r.graves)
  }

  /** Delete: unlink the i-th live node; it keeps its old neighbours as its links. */
  function Remove<N>(r: Ring<N>, i: nat): Ring<N>
    requires i < |r.order|
  {
    Ring(r.order[..i] + r.order[i + 1..],
         r.graves + [Grave(r.order[i], NextLink(r.order, i), PrevLink(r.order, i))])
  }

  /** Move to the newest end (last) or the oldest end. */
  function Relink<N>(r: Ring<N>, i: nat, last: bool): Ring<N>
    requires i < |r.order|
  {
    var rest := r.order[..i] + r.order[i + 1..];
    Ring(if last then rest + [r.order[i]] else [r.order[i]] + rest, r.graves)
  }

  /** The same ring walked backwards: order reversed, every link pair swapped. */
  function Mirror<N>(r: Ring<N>): Ring<N>
  {
    Ring(Reverse(r.order),
         seq(|r.graves|, j requires 0 <= j < |r.graves| =>
           Grave(r.graves[j].node, r.graves[j].prev, r.graves[j].next)))
  }

  function View<N>(r: Ring<N>, reverse: bool): Ring<N>
  {
    if reverse then Mirror(r) else r
  }

  // ---------------------------------------------------------------------------
  // Walking: what a cursor will still visit, and one step of the iterator

  /** The forward walk that starts by following link l; only graves from index `from`
      on can be passed through, which bounds the walk. */
  function Chase<N(==)>(r: Ring<N>, l: Link<N>, from: nat): (t: Trail<N>)
    ensures t.resume.Some? ==> t.resume.value < |r.order|
    decreases |r.graves| - from
  {
    match l
    case Root => Trail([], None)
    case To(n) =>
      var i := Find(r.order, n);
      if i < |r.order| then Trail([], Some(i))
      else
        var j := Find(Buried(r.graves), n);
        if from <= j < |r.graves| then
          var t := Chase(r, r.graves[j].next, j + 1);
          Trail([n] + t.stale, t.resume)
        else Trail([], None)
  }

  function Locate<N(==)>(r: Ring<N>, c: Cursor<N>): (t: Trail<N>)
    ensures t.resume.Some? ==> t.resume.value <= |r.order|
  {
    match c
    case Done => Trail([], None)
    case Start => Trail([], Some(0))
    case At(n) =>
      var i := Find(r.order, n);
      if i < |r.order| then Trail([], Some(i + 1))
      else
        var j := Find(Buried(r.graves), n);
        if j < |r.graves| then Chase(r, r.graves[j].next, j + 1) else Trail([], None)
  }

  function Yield<N>(r: Ring<N>, t: Trail<N>): seq<N>
    requires t.resume.Some? ==> t.resume.value <= |r.order|
  {
    t.stale + if t.resume.Some? then r.order[t.resume.value..] else []
  }

  /** A node met before a trail is met before all it yields. */
  lemma YieldCons<N>(r: Ring<N>, m: N, t: Trail<N>)
    requires t.resume.Some? ==> t.resume.value <= |r.order|
    ensures Yield(r, Trail([m] + t.stale, t.resume)) == [m] + Yield(r, t)
  {
  }

  /** The nodes a forward cursor visits from here on if the ring stays as it is. */
  function Ahead<N(==)>(r: Ring<N>, c: Cursor<N>): seq<N>
  {
    Yield(r, Locate(r, c))
  }

  /** The same for a cursor walking in either direction. */
  function Remaining<N(==)>(r: Ring<N>, c: Cursor<N>, reverse: bool): seq<N>
  {
    Ahead(View(r, reverse), c)
  }

  /** The walk from c ends by stepping from the newest live node onto the sentinel,
      so a node linked in before the sentinel will still be met. */
  predicate Open<N(==)>(r: Ring<N>, c: Cursor<N>)
  {
    Locate(r, c).resume.Some?
  }

  /** The cursor is on a removed node, and its stale links re-enter the live ring at x. */
  predicate Parked<N(==)>(r: Ring<N>, c: Cursor<N>, x: N)
  {
    && c.At? && c.node !in r.order
    && var t := Locate(r, c);
       t.resume.Some? && t.resume.value < |r.order| && r.order[t.resume.value] == x
  }

  /** The link a forward cursor follows on its next step. */
  function Follow<N(==)>(r: Ring<N>, c: Cursor<N>): Link<N>
    requires !c.Done?
  {
    match c
    case Start => if r.order == [] then Root else To(r.order[0])
    case At(n) =>
      var i := Find(r.order, n);
      if i < |r.order| then NextLink(r.order, i)
      else
        var j := Find(Buried(r.graves), n);
        if j < |r.graves| then r.graves[j].next else Root
  }

  /** One call of Next: the node reached (None on reaching the sentinel) and the new cursor. */
  function Step<N(==)>(r: Ring<N>, c: Cursor<N>): (Option<N>, Cursor<N>)
  {
    if c.Done? then (None, Done)
    else match Follow(r, c)
      case Root => (None, Done)
      case To(n) => (Some(n), At(n))
  }

  // ---------------------------------------------------------------------------
  // Next follows the walk

  /** A grave's link that leads to a node leads to a live one or to a later grave. */
  lemma PointsFind<N>(r: Ring<N>, j: nat, n: N)
    requires WF(r) && j < |r.graves| && Points(r, j, To(n))
    ensures var k := Find(Buried(r.graves), n);
      Find(r.order, n) < |r.order| || (j < k < |r.graves| && r.graves[k].node == n)
  {
    var b := Buried(r.graves);
    FindIn(r.order, n);
    if n !in r.order {
      assert n in b[j + 1..];
      var k :| j + 1 <= k < |b| && b[k] == n;
      FindDistinct(b, k);
    }
  }

  /** A removed node's kept link that leads to a node: the walk meets that node first,
      and a cursor on it sees the rest of the walk. */
  lemma ChaseFromGrave<N>(r: Ring<N>, j: nat, m: N)
    requires WF(r) && j < |r.graves| && r.graves[j].next == To(m)
    ensures var a := Yield(r, Chase(r, To(m), j + 1));
      Knows(r, At(m)) && a != [] && a[0] == m && Ahead(r, At(m)) == a[1..]
  {
    var o, b := r.order, Buried(r.graves);
    PointsFind(r, j, m);
    FindIn(o, m);
    var p := Find(o, m);
    if p < |o| {
      assert Locate(r, At(m)) == Trail([], Some(p + 1));
    } else {
      var k := Find(b, m);
      var t := Chase(r, r.graves[k].next, k + 1);
      assert Chase(r, To(m), j + 1) == Trail([m] + t.stale, t.resume);
      YieldCons(r, m, t);
      assert Locate(r, At(m)) == t;
    }
  }

  /** Stepping from a removed node: its kept link is followed. */
  lemma StepFromGrave<N>(r: Ring<N>, j: nat)
    requires WF(r) && j < |r.graves|
    ensures var c := At(r.graves[j].node); var (y, c') := Step(r, c); var a := Ahead(r, c);
      && Knows(r, c')
      && (a == [] ==> y == None && c' == Done)
      && (a != [] ==> y == Some(a[0]) && Ahead(r, c') == a[1..])
  {
    var o, b := r.order, Buried(r.graves);
    var n := r.graves[j].node;
    assert b[j] == n;
    FindDistinct(b, j);
    FindIn(o, n);
    assert Find(o, n) == |o|;
    var l := r.graves[j].next;
    assert Follow(r, At(n)) == l;
    assert Ahead(r, At(n)) == Yield(r, Chase(r, l, j + 1));
    if l.To? {
      ChaseFromGrave(r, j, l.node);
    }
  }

  /** Stepping from a live node or the sentinel: the ring order is followed. */
  lemma StepFromLive<N>(r: Ring<N>, c: Cursor<N>)
    requires WF(r) && (c.Start? || (c.At? && c.node in r.order))
    ensures var (y, c') := Step(r, c); var a := Ahead(r, c);
      && Knows(r, c')
      && (a == [] ==> y == None && c' == Done)
      && (a != [] ==> y == Some(a[0]) && Ahead(r, c') == a[1..])
  {
    if c.Start? {
      if r.order != [] {
        FindDistinct(r.order, 0);
      }
    } else {
      FindIn(r.order, c.node);
      StepFromLiveAt(r, Find(r.order, c.node));
    }
  }

  lemma StepFromLiveAt<N>(r: Ring<N>, i: nat)
    requires WF(r) && i < |r.order|
    ensures var c := At(r.order[i]); var (y, c') := Step(r, c); var a := Ahead(r, c);
      && Knows(r, c')
      && (a == [] ==> y == None && c' == Done)
      && (a != [] ==> y == Some(a[0]) && Ahead(r, c') == a[1..])
  {
    var o := r.order;
    FindDistinct(o, i);
    assert Follow(r, At(o[i])) == NextLink(o, i);
    assert Ahead(r, At(o[i])) == o[i + 1..];
    if i + 1 < |o| {
      FindDistinct(o, i + 1);
      assert Step(r, At(o[i])) == (Some(o[i + 1]), At(o[i + 1]));
      assert Ahead(r, At(o[i + 1])) == o[i + 2..];
    } else {
      assert Step(r, At(o[i])) == (None, Done);
    }
  }

  /** Next returns the first node still ahead, and what is ahead afterwards is the rest;
      at the end it returns None and the cursor becomes Done. */
  lemma StepAhead<N>(r: Ring<N>, c: Cursor<N>)
    requires WF(r) && Knows(r, c)
    ensures var (y, c') := Step(r, c); var a := Ahead(r, c);
      && Knows(r, c')
      && (a == [] ==> y == None && c' == Done)
      && (a != [] ==> y == Some(a[0]) && Ahead(r, c') == a[1..])
  {
    if c.At? && c.node !in r.order {
      var b := Buried(r.graves);
      var j := Find(b, c.node);
      FindIn(b, c.node);
      StepFromGrave(r, j);
    } else if !c.Done? {
      StepFromLive(r, c);
    }
  }

  // ---------------------------------------------------------------------------
  // The reverse walk is the forward walk of the mirrored ring

  lemma ReverseFacts<T>(s: seq<T>)
    ensures |Reverse(s)| == |s|
    ensures forall x :: x in Reverse(s) <==> x in s
    ensures Distinct(s) ==> Distinct(Reverse(s))
  {
    forall x | x in s ensures x in Reverse(s) {
      var i :| 0 <= i < |s| && s[i] == x;
      assert Reverse(s)[|s| - 1 - i] == x;
    }
  }

  lemma MirrorWF<N>(r: Ring<N>)
    requires WF(r)
    ensures WF(Mirror(r))
    ensures Buried(Mirror(r).graves) == Buried(r.graves)
    ensures forall n :: n in Mirror(r).order <==> n in r.order
  {
    var m := Mirror(r);
    ReverseFacts(r.order);
    assert Buried(m.graves) == Buried(r.graves);
    forall j | 0 <= j < |m.graves|
      ensures Points(m, j, m.graves[j].next) && Points(m, j, m.graves[j].prev)
    {
      assert Points(r, j, r.graves[j].next) && Points(r, j, r.graves[j].prev);
    }
  }

  /** A reverse walk meets the map's entries newest first, and a forward walk oldest first. */
  lemma FullPasses<N>(r: Ring<N>)
    ensures Remaining(r, Start, false) == r.order
    ensures Remaining(r, Start, true) == Reverse(r.order)
  {
  }

  lemma StepRemaining<N>(r: Ring<N>, c: Cursor<N>, reverse: bool)
    requires WF(r) && Knows(r, c)
    ensures var (y, c') := Step(View(r, reverse), c); var a := Remaining(r, c, reverse);
      && Knows(r, c')
      && (a == [] ==> y == None && c' == Done)
      && (a != [] ==> y == Some(a[0]) && Remaining(r, c', reverse) == a[1..])
  {
    if reverse {
      MirrorWF(r);
      StepAhead(Mirror(r), c);
    } else {
      StepAhead(r, c);
    }
  }

  // ---------------------------------------------------------------------------
  // Set of a new key, seen by a cursor anywhere on the ring

  lemma AppendWF<N>(r: Ring<N>, n: N)
    requires WF(r) && Unseen(r, n)
    ensures WF(Append(r, n))
    ensures forall m :: m in Append(r, n).order <==> m in r.order || m == n
  {
    var a := Append(r, n);
    forall j | 0 <= j < |a.graves|
      ensures Points(a, j, a.graves[j].next) && Points(a, j, a.graves[j].prev)
    {
      assert Points(r, j, r.graves[j].next) && Points(r, j, r.graves[j].prev);
    }
  }

  /** A node other than n keeps its position when n is appended. */
  lemma FindAppend<N>(o: seq<N>, n: N, m: N)
    requires m != n
    ensures Find(o + [n], m) < |o + [n]| <==> m in o
    ensures m in o ==> Find(o + [n], m) == Find(o, m)
  {
    FindConcat(o, [n], m);
    FindIn(o, m);
    assert [n][1..] == [];
  }

  lemma {:induction false} ChaseAppend<N>(r: Ring<N>, n: N, l: Link<N>, from: nat)
    requires WF(r) && Unseen(r, n) && (l.To? ==> l.node != n)
    ensures Chase(Append(r, n), l, from) == Chase(r, l, from)
    decreases |r.graves| - from
  {
    if l.To? {
      var m := l.node;
      FindAppend(r.order, n, m);
      var j := Find(Buried(r.graves), m);
      if m !in r.order && from <= j < |r.graves| {
        assert Points(r, j, r.graves[j].next);
        ChaseAppend(r, n, r.graves[j].next, j + 1);
      }
    }
  }

  lemma LocateAppend<N>(r: Ring<N>, n: N, c: Cursor<N>)
    requires WF(r) && Unseen(r, n) && Knows(r, c)
    ensures Locate(Append(r, n), c) == Locate(r, c)
  {
    if c.At? {
      var m := c.node;
      FindAppend(r.order, n, m);
      var j := Find(Buried(r.graves), m);
      if m !in r.order && j < |r.graves| {
        assert Points(r, j, r.graves[j].next);
        ChaseAppend(r, n, r.graves[j].next, j + 1);
      }
    }
  }

  /** A node linked in before the sentinel is still met, last, exactly when the walk
      from c has not yet stepped onto the sentinel. */
  lemma AppendAhead<N>(r: Ring<N>, n: N, c: Cursor<N>)
    requires WF(r) && Unseen(r, n) && Knows(r, c)
    ensures Ahead(Append(r, n), c) == Ahead(r, c) + (if Open(r, c) then [n] else [])
  {
    LocateAppend(r, n, c);
    var t := Locate(r, c);
    if t.resume.Some? {
      assert (r.order + [n])[t.resume.value..] == r.order[t.resume.value..] + [n];
    }
  }

  lemma FindPrepend<N>(o: seq<N>, n: N, m: N)
    requires m != n
    ensures Find([n] + o, m) == 1 + Find(o, m)
  {
    FindConcat([n], o, m);
  }

  lemma {:induction false} ChasePrepend<N>(r: Ring<N>, n: N, l: Link<N>, from: nat)
    requires WF(r) && Unseen(r, n) && (l.To? ==> l.node != n)
    ensures var t := Chase(r, l, from); var t' := Chase(Prepend(r, n), l, from);
      t'.stale == t.stale && (t.resume.Some? <==> t'.resume.Some?)
      && (t.resume.Some? ==> t'.resume.value == t.resume.value + 1)
    decreases |r.graves| - from, 1
  {
    if l.To? {
      var m := l.node;
      FindPrepend(r.order, n, m);
      var j := Find(Buried(r.graves), m);
      if Find(r.order, m) == |r.order| && from <= j < |r.graves| {
        FindIn(Buried(r.graves), m);
        ChasePrependGrave(r, n, j, from);
      }
    }
  }

  lemma {:induction false} ChasePrependGrave<N>(r: Ring<N>, n: N, j: nat, from: nat)
    requires WF(r) && Unseen(r, n) && from <= j < |r.graves|
    requires Find(r.order, r.graves[j].node) == |r.order|
    ensures var l := To(r.graves[j].node);
      var t := Chase(r, l, from); var t' := Chase(Prepend(r, n), l, from);
      t'.stale == t.stale && (t.resume.Some? <==> t'.resume.Some?)
      && (t.resume.Some? ==> t'.resume.value == t.resume.value + 1)
    decreases |r.graves| - j, 0
  {
    var b := Buried(r.graves);
    assert b[j] == r.graves[j].node;
    FindDistinct(b, j);
    FindPrepend(r.order, n, b[j]);
    assert Points(r, j, r.graves[j].next);
    ChasePrepend(r, n, r.graves[j].next, j + 1);
  }

  lemma LocatePrepend<N>(r: Ring<N>, n: N, c: Cursor<N>)
    requires WF(r) && Unseen(r, n) && Knows(r, c) && !c.Start?
    ensures var t := Locate(r, c); var t' := Locate(Prepend(r, n), c);
      t'.stale == t.stale && (t.resume.Some? <==> t'.resume.Some?)
      && (t.resume.Some? ==> t'.resume.value == t.resume.value + 1)
  {
    if c.At? {
      var m := c.node;
      FindConcat([n], r.order, m);
      FindIn(r.order, m);
      var j := Find(Buried(r.graves), m);
      if m !in r.order && j < |r.graves| {
        assert Points(r, j, r.graves[j].next);
        ChasePrepend(r, n, r.graves[j].next, j + 1);
      }
    }
  }

  /** A node linked in just after the sentinel is met only by a walk not yet begun. */
  lemma PrependAhead<N>(r: Ring<N>, n: N, c: Cursor<N>)
    requires WF(r) && Unseen(r, n) && Knows(r, c)
    ensures Ahead(Prepend(r, n), c) == (if c.Start? then [n] else []) + Ahead(r, c)
  {
    if !c.Start? {
      LocatePrepend(r, n, c);
      var t := Locate(r, c);
      if t.resume.Some? {
        assert ([n] + r.order)[t.resume.value + 1..] == r.order[t.resume.value..];
      }
    }
  }

  lemma MirrorAppend<N>(r: Ring<N>, n: N)
    ensures Mirror(Append(r, n)) == Prepend(Mirror(r), n)
  {
    assert Reverse(r.order + [n]) == [n] + Reverse(r.order);
  }

  /** Set of a new key during a pass: a forward pass meets the new entry last if it has
      not finished; a reverse pass meets it only if it has not begun. */
  lemma InsertRemaining<N>(r: Ring<N>, n: N, c: Cursor<N>, reverse: bool)
    requires WF(r) && Unseen(r, n) && Knows(r, c)
    ensures WF(Append(r, n)) && Knows(Append(r, n), c)
    ensures Remaining(Append(r, n), c, reverse) ==
      if reverse then (if c.Start? then [n] else []) + Remaining(r, c, true)
      else Remaining(r, c, false) + (if Open(r, c) then [n] else [])
  {
    AppendWF(r, n);
    if reverse {
      MirrorWF(r);
      MirrorAppend(r, n);
      PrependAhead(Mirror(r), n, c);
    } else {
      AppendAhead(r, n, c);
    }
  }

  // ---------------------------------------------------------------------------
  // Delete, seen by a cursor anywhere on the ring

  lemma RestFacts<N>(o: seq<N>, i: nat)
    requires Distinct(o) && i < |o|
    ensures var rest := o[..i] + o[i + 1..];
      Distinct(rest) && o[i] !in rest
      && forall m :: m in rest <==> m in o && m != o[i]
  {
    var rest := o[..i] + o[i + 1..];
    forall p | 0 <= p < |rest| ensures rest[p] == o[if p < i then p else p + 1] {
    }
    forall m | m in o && m != o[i] ensures m in rest {
      var q :| 0 <= q < |o| && o[q] == m;
      assert rest[if q < i then q else q - 1] == m;
    }
  }

  lemma RemoveWF<N>(r: Ring<N>, i: nat)
    requires WF(r) && i < |r.order|
    ensures WF(Remove(r, i))
    ensures Buried(Remove(r, i).graves) == Buried(r.graves) + [r.order[i]]
    ensures forall m :: m in Remove(r, i).order <==> m in r.order && m != r.order[i]
  {
    var o, x, d := r.order, r.order[i], Remove(r, i);
    RestFacts(o, i);
    var b := Buried(r.graves);
    assert Buried(d.graves) == b + [x];
    assert x !in b;
    forall p, q | 0 <= p < q < |b| + 1 ensures (b + [x])[p] != (b + [x])[q] {
      if q == |b| {
        assert (b + [x])[p] == b[p] && b[p] in b;
      }
    }
    forall j | 0 <= j < |d.graves|
      ensures Points(d, j, d.graves[j].next) && Points(d, j, d.graves[j].prev)
    {
      if j < |r.graves| {
        assert Points(r, j, r.graves[j].next) && Points(r, j, r.graves[j].prev);
        assert Buried(d.graves)[j + 1..] == b[j + 1..] + [x];
      } else {
        if i + 1 < |o| { assert o[i + 1] in d.order; }
        if 0 < i { assert o[i - 1] in d.order; }
      }
    }
  }

  /** Where a live node other than the i-th sits once the i-th is unlinked. */
  lemma FindRemove<N>(o: seq<N>, i: nat, q: nat)
    requires Distinct(o) && i < |o| && q < |o| && q != i
    ensures Find(o[..i] + o[i + 1..], o[q]) == if q < i then q else q - 1
  {
    var rest := o[..i] + o[i + 1..];
    RestFacts(o, i);
    FindDistinct(rest, if q < i then q else q - 1);
  }

  /** The live nodes from position p on, once the i-th is unlinked. */
  lemma SuffixRemove<N>(o: seq<N>, i: nat, p: nat)
    requires Distinct(o) && i < |o| && p <= |o|
    ensures (o[..i] + o[i + 1..])[if p <= i then p else p - 1..] == Without(o[p..], o[i])
  {
    if p <= i {
      WithoutAt(o, p, i);
      assert (o[..i] + o[i + 1..])[p..] == o[p..i] + o[i + 1..];
    } else {
      assert o[i] !in o[p..];
      WithoutAbsent(o[p..], o[i]);
      assert (o[..i] + o[i + 1..])[p - 1..] == o[p..];
    }
  }

  /** The walk from the removed node itself: its kept next link re-enters the ring. */
  lemma ChaseRemoved<N>(r: Ring<N>, i: nat)
    requires WF(r) && i < |r.order|
    ensures Yield(Remove(r, i), Chase(Remove(r, i), NextLink(r.order, i), |r.graves| + 1))
      == r.order[i + 1..]
  {
    var o, d := r.order, Remove(r, i);
    if i + 1 < |o| {
      FindRemove(o, i, i + 1);
      SuffixRemove(o, i, i + 1);
      WithoutAbsent(o[i + 1..], o[i]);
    }
  }

  /** A walk that reached the i-th node now passes through it and carries on as before. */
  lemma ChaseToRemoved<N>(r: Ring<N>, i: nat, from: nat)
    requires WF(r) && i < |r.order| && from <= |r.graves|
    ensures Chase(r, To(r.order[i]), from) == Trail([], Some(i))
    ensures Yield(Remove(r, i), Chase(Remove(r, i), To(r.order[i]), from)) == r.order[i..]
  {
    var o, x, d := r.order, r.order[i], Remove(r, i);
    FindDistinct(o, i);
    ChaseIntoRemoved(r, i, from);
    YieldCons(d, x, Chase(d, NextLink(o, i), |r.graves| + 1));
    ChaseRemoved(r, i);
    assert o[i..] == [x] + o[i + 1..];
  }

  /** After Delete of the i-th live node, a walk that reaches it goes on along its kept link. */
  lemma ChaseIntoRemoved<N>(r: Ring<N>, i: nat, from: nat)
    requires WF(r) && i < |r.order| && from <= |r.graves|
    ensures var d := Remove(r, i); var t := Chase(d, NextLink(r.order, i), |r.graves| + 1);
      Chase(d, To(r.order[i]), from) == Trail([r.order[i]] + t.stale, t.resume)
  {
    var d := Remove(r, i);
    RemoveWF(r, i);
    assert d.graves[|r.graves|] == Grave(r.order[i], NextLink(r.order, i), PrevLink(r.order, i));
    ChaseGrave(d, |r.graves|, from);
  }

  /** A walk that reached another live node still reaches it. */
  lemma ChaseToLive<N>(r: Ring<N>, i: nat, q: nat, from: nat)
    requires WF(r) && i < |r.order| && q < |r.order| && q != i
    ensures Chase(r, To(r.order[q]), from) == Trail([], Some(q))
    ensures Yield(Remove(r, i), Chase(Remove(r, i), To(r.order[q]), from))
      == Without(r.order[q..], r.order[i])
  {
    var o, x, d := r.order, r.order[i], Remove(r, i);
    FindDistinct(o, q);
    FindRemove(o, i, q);
    SuffixRemove(o, i, q);
    var q' := if q < i then q else q - 1;
    assert Chase(d, To(o[q]), from) == Trail([], Some(q'));
  }

  /** A walk that meets a removed node passes through it along its kept next link. */
  lemma ChaseGrave<N>(r: Ring<N>, k: nat, from: nat)
    requires WF(r) && from <= k < |r.graves|
    ensures var t := Chase(r, r.graves[k].next, k + 1);
      Chase(r, To(r.graves[k].node), from) == Trail([r.graves[k].node] + t.stale, t.resume)
  {
    var b := Buried(r.graves);
    assert b[k] == r.graves[k].node;
    FindDistinct(b, k);
    FindIn(r.order, b[k]);
  }

  /** A walk that passes through an older removed node passes through it still. */
  lemma ChaseThroughGrave<N>(r: Ring<N>, i: nat, k: nat, from: nat)
    requires WF(r) && i < |r.order| && from <= k < |r.graves|
    ensures var d, m, l := Remove(r, i), r.graves[k].node, r.graves[k].next;
      var t' := Chase(d, l, k + 1);
      Chase(d, To(m), from) == Trail([m] + t'.stale, t'.resume)
  {
    var d := Remove(r, i);
    RemoveWF(r, i);
    assert d.graves[k] == r.graves[k];
    ChaseGrave(d, k, from);
  }

  /** What a walk that starts along l meets after Delete of the i-th live node: the same
      nodes if it was about to re-enter the ring at that node (it now passes through it),
      and otherwise the same nodes less that one. */
  predicate Tracks<N(==)>(r: Ring<N>, i: nat, l: Link<N>, from: nat)
    requires i < |r.order|
  {
    var t, t' := Chase(r, l, from), Chase(Remove(r, i), l, from);
    && (t.resume == Some(i) ==> Yield(Remove(r, i), t') == Yield(r, t))
    && (t.resume != Some(i) ==> Yield(Remove(r, i), t') == Without(Yield(r, t), r.order[i]))
  }

  lemma TracksRemoved<N>(r: Ring<N>, i: nat, from: nat)
    requires WF(r) && i < |r.order| && from <= |r.graves|
    ensures Tracks(r, i, To(r.order[i]), from)
  {
    ChaseToRemoved(r, i, from);
  }

  lemma TracksLive<N>(r: Ring<N>, i: nat, q: nat, from: nat)
    requires WF(r) && i < |r.order| && q < |r.order| && q != i
    ensures Tracks(r, i, To(r.order[q]), from)
  {
    ChaseToLive(r, i, q, from);
    assert Yield(r, Chase(r, To(r.order[q]), from)) == r.order[q..];
  }

  lemma TracksGrave<N>(r: Ring<N>, i: nat, k: nat, from: nat)
    requires WF(r) && i < |r.order| && from <= k < |r.graves|
    requires Tracks(r, i, r.graves[k].next, k + 1)
    ensures Tracks(r, i, To(r.graves[k].node), from)
  {
    var m, x, d := r.graves[k].node, r.order[i], Remove(r, i);
    var t := Chase(r, r.graves[k].next, k + 1);
    var t' := Chase(d, r.graves[k].next, k + 1);
    assert Chase(r, To(m), from) == Trail([m] + t.stale, t.resume) by {
      ChaseGrave(r, k, from);
    }
    assert Chase(d, To(m), from) == Trail([m] + t'.stale, t'.resume) by {
      ChaseThroughGrave(r, i, k, from);
    }
    YieldCons(r, m, t);
    YieldCons(d, m, t');
    assert m != x by {
      assert Buried(r.graves)[k] == m;
    }
    WithoutCons(m, Yield(r, t), x);
  }

  lemma {:induction false} ChaseRemove<N>(r: Ring<N>, i: nat, l: Link<N>, from: nat)
    requires WF(r) && i < |r.order| && from <= |r.graves|
    requires l.To? ==> l.node in r.order || l.node in Buried(r.graves)[from..]
    ensures Tracks(r, i, l, from)
    decreases |r.graves| - from, 1
  {
    var o := r.order;
    if l.To? {
      var m := l.node;
      FindIn(o, m);
      if m == o[i] {
        TracksRemoved(r, i, from);
      } else if m in o {
        TracksLive(r, i, Find(o, m), from);
      } else {
        var b := Buried(r.graves);
        var k :| from <= k < |b| && b[k] == m;
        ChaseRemoveGrave(r, i, k, from);
      }
    }
  }

  lemma {:induction false} ChaseRemoveGrave<N>(r: Ring<N>, i: nat, k: nat, from: nat)
    requires WF(r) && i < |r.order| && from <= k < |r.graves|
    ensures Tracks(r, i, To(r.graves[k].node), from)
    decreases |r.graves| - k, 0
  {
    assert Points(r, k, r.graves[k].next);
    ChaseRemove(r, i, r.graves[k].next, k + 1);
    TracksGrave(r, i, k, from);
  }

  /** A cursor on a removed node resumes where that node's kept next link leads. */
  lemma LocateGrave<N>(r: Ring<N>, j: nat)
    requires WF(r) && j < |r.graves|
    ensures Locate(r, At(r.graves[j].node)) == Chase(r, r.graves[j].next, j + 1)
  {
    var b := Buried(r.graves);
    assert b[j] == r.graves[j].node;
    FindDistinct(b, j);
    FindIn(r.order, b[j]);
  }

  lemma LocateRemoveGrave<N>(r: Ring<N>, i: nat, j: nat)
    requires WF(r) && i < |r.order| && j < |r.graves|
    ensures Locate(Remove(r, i), At(r.graves[j].node))
      == Chase(Remove(r, i), r.graves[j].next, j + 1)
  {
    var d := Remove(r, i);
    RemoveWF(r, i);
    assert d.graves[j] == r.graves[j];
    LocateGrave(d, j);
  }

  /** A cursor on the removed node itself still goes on to that node's successor. */
  lemma LocateRemoved<N>(r: Ring<N>, i: nat)
    requires WF(r) && i < |r.order|
    ensures Ahead(Remove(r, i), At(r.order[i])) == r.order[i + 1..]
  {
    var d := Remove(r, i);
    RemoveWF(r, i);
    assert d.graves[|r.graves|] == Grave(r.order[i], NextLink(r.order, i), PrevLink(r.order, i));
    LocateGrave(d, |r.graves|);
    ChaseRemoved(r, i);
  }

  /** From a live node a pass meets exactly the nodes linked after it. */
  lemma AheadLive<N>(r: Ring<N>, q: nat)
    requires Distinct(r.order) && q < |r.order|
    ensures Ahead(r, At(r.order[q])) == r.order[q + 1..]
  {
    FindDistinct(r.order, q);
  }

  lemma RemoveAheadLive<N>(r: Ring<N>, i: nat, q: nat)
    requires WF(r) && i < |r.order| && q < |r.order| && q != i
    ensures Ahead(Remove(r, i), At(r.order[q])) == Without(Ahead(r, At(r.order[q])), r.order[i])
  {
    var q' := if q < i then q else q - 1;
    AheadLive(r, q);
    RestAfter(r.order, i, q);
    AheadLive(Remove(r, i), q');
  }

  /** Dropping the i-th of distinct nodes, seen from the q-th: it keeps its place, less
      one when it came after the dropped one, and loses the dropped one from what follows. */
  lemma RestAfter<N>(o: seq<N>, i: nat, q: nat)
    requires Distinct(o) && i < |o| && q < |o| && q != i
    ensures var rest, q' := o[..i] + o[i + 1..], if q < i then q else q - 1;
      && Distinct(rest) && q' < |rest| && rest[q'] == o[q]
      && rest[q' + 1..] == Without(o[q + 1..], o[i])
  {
    RestFacts(o, i);
    SuffixRemove(o, i, q + 1);
  }

  lemma RemoveAheadGrave<N>(r: Ring<N>, i: nat, j: nat)
    requires WF(r) && i < |r.order| && j < |r.graves|
    ensures var c, x := At(r.graves[j].node), r.order[i];
      Ahead(Remove(r, i), c) ==
        if Parked(r, c, x) then Ahead(r, c) else Without(Ahead(r, c), x)
  {
    var o, x, d := r.order, r.order[i], Remove(r, i);
    var c := At(r.graves[j].node);
    var t := Chase(r, r.graves[j].next, j + 1);
    assert Locate(r, c) == t by {
      LocateGrave(r, j);
    }
    assert Locate(d, c) == Chase(d, r.graves[j].next, j + 1) by {
      LocateRemoveGrave(r, i, j);
    }
    assert Tracks(r, i, r.graves[j].next, j + 1) by {
      assert Points(r, j, r.graves[j].next);
      ChaseRemove(r, i, r.graves[j].next, j + 1);
    }
    assert c.node !in o by {
      assert Buried(r.graves)[j] == c.node;
    }
    assert Parked(r, c, x) <==> t.resume == Some(i) by {
      if t.resume.Some? && t.resume.value < |o| && o[t.resume.value] == x {
        FindDistinct(o, i);
        FindDistinct(o, t.resume.value);
      }
    }
  }

  /** Delete of the i-th live node, seen by a forward cursor: the node leaves what is
      ahead, except when the cursor sits on an already removed node whose kept link
      leads to it; then the walk still passes through it. */
  lemma RemoveAhead<N>(r: Ring<N>, i: nat, c: Cursor<N>)
    requires WF(r) && Knows(r, c) && i < |r.order|
    ensures Ahead(Remove(r, i), c) ==
      if Parked(r, c, r.order[i]) then Ahead(r, c) else Without(Ahead(r, c), r.order[i])
  {
    var o, x, d := r.order, r.order[i], Remove(r, i);
    if c.Start? {
      WithoutAt(o, 0, i);
      assert o[0..] == o && o[0..i] == o[..i];
      assert Ahead(d, c) == d.order[0..] == d.order;
      assert Ahead(r, c) == o;
    } else if c.At? {
      var m := c.node;
      FindIn(o, m);
      if m == x {
        LocateRemoved(r, i);
        FindDistinct(o, i);
        assert !Parked(r, c, x);
        assert Locate(r, c) == Trail([], Some(i + 1));
        assert Ahead(r, c) == o[i + 1..];
        assert o[i] !in o[i + 1..];
        WithoutAbsent(o[i + 1..], x);
      } else if m in o {
        var q := Find(o, m);
        RemoveAheadLive(r, i, q);
      } else {
        var b := Buried(r.graves);
        FindIn(b, m);
        var j := Find(b, m);
        RemoveAheadGrave(r, i, j);
      }
    }
  }

  lemma MirrorRemove<N>(r: Ring<N>, i: nat)
    requires i < |r.order|
    ensures |Mirror(r).order| == |r.order| && Mirror(r).order[|r.order| - 1 - i] == r.order[i]
    ensures Mirror(Remove(r, i)) == Remove(Mirror(r), |r.order| - 1 - i)
  {
    var o, k := r.order, |r.order| - 1 - i;
    var m := Mirror(r);
    var left := Mirror(Remove(r, i)).order;
    var right := m.order[..k] + m.order[k + 1..];
    assert |left| == |right|;
    forall p | 0 <= p < |left| ensures left[p] == right[p] {
      if p < k {
        assert right[p] == o[|o| - 1 - p];
      } else {
        assert right[p] == o[|o| - 2 - p];
      }
    }
    assert NextLink(m.order, k) == PrevLink(o, i);
    assert PrevLink(m.order, k) == NextLink(o, i);
  }

  /** Delete during a pass in either direction: the deleted entry is no longer met,
      unless the cursor is parked on a deleted node whose kept link in the direction
      of the walk leads to it. */
  lemma DeleteRemaining<N>(r: Ring<N>, i: nat, c: Cursor<N>, reverse: bool)
    requires WF(r) && Knows(r, c) && i < |r.order|
    ensures WF(Remove(r, i)) && Knows(Remove(r, i), c)
    ensures Remaining(Remove(r, i), c, reverse) ==
      if Parked(View(r, reverse), c, r.order[i]) then Remaining(r, c, reverse)
      else Without(Remaining(r, c, reverse), r.order[i])
  {
    RemoveWF(r, i);
    if reverse {
      DeleteRemainingReverse(r, i, c);
    } else {
      RemoveAhead(r, i, c);
    }
  }

  lemma DeleteRemainingReverse<N>(r: Ring<N>, i: nat, c: Cursor<N>)
    requires WF(r) && Knows(r, c) && i < |r.order|
    ensures Ahead(Mirror(Remove(r, i)), c) ==
      if Parked(Mirror(r), c, r.order[i]) then Ahead(Mirror(r), c)
      else Without(Ahead(Mirror(r), c), r.order[i])
  {
    var m, k := Mirror(r), |r.order| - 1 - i;
    MirrorWF(r);
    assert Knows(m, c);
    MirrorRemove(r, i);
    RemoveAhead(m, k, c);
    assert Mirror(Remove(r, i)) == Remove(m, k) && m.order[k] == r.order[i];
  }

  /** Delete of the node a cursor is on leaves what it will visit unchanged. */
  lemma DeleteUnderCursor<N>(r: Ring<N>, i: nat, reverse: bool)
    requires WF(r) && i < |r.order|
    ensures Remaining(Remove(r, i), At(r.order[i]), reverse) == Remaining(r, At(r.order[i]), reverse)
  {
    var x := r.order[i];
    DeleteRemaining(r, i, At(x), reverse);
    var a := Remaining(r, At(x), reverse);
    var v := View(r, reverse);
    MirrorWF(r);
    assert x in v.order;
    FindIn(v.order, x);
    var p := Find(v.order, x);
    assert a == v.order[p + 1..];
    assert WF(v);
    assert forall q :: p + 1 <= q < |v.order| ==> v.order[q] != v.order[p];
    assert x !in a;
    WithoutAbsent(a, x);
  }

  /** Delete of the newest node while a forward cursor is on it ends that pass: nothing
      is ahead, and an entry Set afterwards is not met either. */
  lemma DeleteNewestUnderCursor<N>(r: Ring<N>)
    requires WF(r) && r.order != []
    ensures var i := |r.order| - 1;
      Ahead(Remove(r, i), At(r.order[i])) == [] && !Open(Remove(r, i), At(r.order[i]))
  {
    var i := |r.order| - 1;
    var d := Remove(r, i);
    RemoveWF(r, i);
    assert d.graves[|r.graves|] == Grave(r.order[i], Root, PrevLink(r.order, i));
    LocateGrave(d, |r.graves|);
  }

  // ---------------------------------------------------------------------------
  // Move

  lemma RelinkOrder<N>(r: Ring<N>, i: nat, last: bool)
    requires i < |r.order|
    ensures var rest := r.order[..i] + r.order[i + 1..];
      Relink(r, i, last).order == if last then rest + [r.order[i]] else [r.order[i]] + rest
  {
  }

  lemma RelinkWF<N>(r: Ring<N>, i: nat, last: bool)
    requires WF(r) && i < |r.order|
    ensures WF(Relink(r, i, last))
    ensures forall m :: m in Relink(r, i, last).order <==> m in r.order
    ensures Relink(r, i, last).graves == r.graves
  {
    var o, x, e := r.order, r.order[i], Relink(r, i, last);
    var rest := o[..i] + o[i + 1..];
    RestFacts(o, i);
    var s := if last then rest + [x] else [x] + rest;
    forall p, q | 0 <= p < q < |s| ensures s[p] != s[q] {
      if last {
        if q == |rest| { assert s[p] == rest[p]; }
        else { assert s[p] == rest[p] && s[q] == rest[q]; }
      } else {
        if p == 0 { assert s[q] == rest[q - 1]; }
        else { assert s[p] == rest[p - 1] && s[q] == rest[q - 1]; }
      }
    }
    assert forall m :: m in s <==> m in rest || m == x;
    forall j | 0 <= j < |e.graves|
      ensures Points(e, j, e.graves[j].next) && Points(e, j, e.graves[j].prev)
    {
      assert Points(r, j, r.graves[j].next) && Points(r, j, r.graves[j].prev);
    }
  }
}
