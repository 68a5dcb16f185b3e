/** Reference specification of an insertion-ordered map: the entries as a sequence of
    (key, value) pairs, oldest first, with pairwise distinct keys. The linked implementation
    in OrderedMaps is proved to act on this sequence exactly as the functions below do. */
module AssocList {
  import opened Wrappers
  import opened SeqUtil

  /** The keys of the entries, in order. */
  function Keys<K, V>(es: seq<(K, V)>): seq<K>
  {
    seq(|es|, i requires 0 <= i < |es| => es[i].0)
  }

  predicate DistinctKeys<K(==), V>(es: seq<(K, V)>)
  {
    forall i, j :: 0 <= i < j < |es| ==> es[i].0 != es[j].0
  }

  /** Position of key k, or |es| when k is absent. */
  function IndexOf<K(==), V>(es: seq<(K, V)>, k: K): (i: nat)
    ensures i <= |es|
    ensures i < |es| ==> es[i].0 == k
    ensures forall j :: 0 <= j < i ==> es[j].0 != k
  {
    if es == [] then 0 else if es[0].0 == k then 0 else 1 + IndexOf(es[1..], k)
  }

  function Lookup<K(==), V>(es: seq<(K, V)>, k: K): Option<V>
  {
    var i := IndexOf(es, k);
    if i < |es| then Some(es[i].1) else None
  }

  /** Set: overwrite in place when present, append at the newest end otherwise. */
  function Put<K(==), V>(es: seq<(K, V)>, k: K, v: V): seq<(K, V)>
  {
    var i := IndexOf(es, k);
    if i < |es| then es[i := (k, v)] else es + [(k, v)]
  }

  /** Delete: drop the entry of k, if any. */
  function Remove<K(==), V>(es: seq<(K, V)>, k: K): seq<(K, V)>
  {
    var i := IndexOf(es, k);
    if i < |es| then es[..i] + es[i + 1..] else es
  }

  function First<K, V>(es: seq<(K, V)>): Option<(K, V)>
  {
    if es == [] then None else Some(es[0])
  }

  function Last<K, V>(es: seq<(K, V)>): Option<(K, V)>
  {
    if es == [] then None else Some(es[|es| - 1])
  }

  /** Pop: the newest (last) or oldest entry, and the entries without it. */
  function Pop<K(==), V>(es: seq<(K, V)>, last: bool): (Option<(K, V)>, seq<(K, V)>)
  {
    var e := if last then Last(es) else First(es);
    if e.Some? then (e, Remove(es, e.value.0)) else (None, es)
  }

  /** Move: put the entry of k at the newest end (last) or the oldest end; no change if absent. */
  function Move<K(==), V>(es: seq<(K, V)>, k: K, last: bool): seq<(K, V)>
  {
    var i := IndexOf(es, k);
    if i == |es| then es
    else
      var rest := es[..i] + es[i + 1..];
      if last then rest + [es[i]] else [es[i]] + rest
  }

  /** The entries returned by popping until the map is empty. */
  function Drain<K(==), V>(es: seq<(K, V)>, last: bool): seq<(K, V)>
    decreases |es|
  {
    var (e, rest) := Pop(es, last);
    if e.None? then [] else [e.value] + Drain(rest, last)
  }

  // ---------------------------------------------------------------------------
  // Properties of the reference operations

  lemma IndexOfDistinct<K, V>(es: seq<(K, V)>, i: nat)
    requires DistinctKeys(es) && i < |es|
    ensures IndexOf(es, es[i].0) == i
  {
  }

  /** A key is present exactly when IndexOf finds it. */
  lemma IndexOfKeys<K, V>(es: seq<(K, V)>, k: K)
    ensures IndexOf(es, k) < |es| <==> k in Keys(es)
  {
    var i := IndexOf(es, k);
    if i < |es| {
      assert Keys(es)[i] == k;
    } else {
      assert forall j :: 0 <= j < |es| ==> Keys(es)[j] != k;
    }
  }

  /** With distinct keys, Lookup finds exactly the pairs that are present. */
  lemma LookupMember<K, V>(es: seq<(K, V)>, k: K, v: V)
    requires DistinctKeys(es)
    ensures Lookup(es, k) == Some(v) <==> (k, v) in es
  {
    if (k, v) in es {
      var j :| 0 <= j < |es| && es[j] == (k, v);
      IndexOfDistinct(es, j);
    }
  }

  /** Set makes k map to v and leaves every other key's value alone. */
  lemma PutLookup<K, V>(es: seq<(K, V)>, k: K, v: V, k': K)
    requires DistinctKeys(es)
    ensures DistinctKeys(Put(es, k, v))
    ensures Lookup(Put(es, k, v), k') == if k' == k then Some(v) else Lookup(es, k')
  {
    var i := IndexOf(es, k);
    var es' := Put(es, k, v);
    var j := IndexOf(es, k');
    if j < |es| {
      IndexOfDistinct(es', j);
    } else if k' == k {
      assert es'[|es|] == (k, v);
      IndexOfDistinct(es', |es|);
    }
  }

  /** Set keeps the position of a present key and appends an absent one at the newest end. */
  lemma PutKeys<K, V>(es: seq<(K, V)>, k: K, v: V)
    ensures Keys(Put(es, k, v)) == if k in Keys(es) then Keys(es) else Keys(es) + [k]
  {
    IndexOfKeys(es, k);
  }

  /** Delete removes k and nothing else. */
  lemma RemoveLookup<K, V>(es: seq<(K, V)>, k: K, k': K)
    requires DistinctKeys(es)
    ensures DistinctKeys(Remove(es, k))
    ensures Lookup(Remove(es, k), k') == if k' == k then None else Lookup(es, k')
  {
    var i := IndexOf(es, k);
    var es' := Remove(es, k);
    if i < |es| {
      CutAt(es, i, es');
      assert DistinctKeys(es') by {
        forall a, b | 0 <= a < b < |es'| ensures es'[a].0 != es'[b].0 {
          var a', b' := if a < i then a else a + 1, if b < i then b else b + 1;
          assert es'[a] == es[a'] && es'[b] == es[b'];
        }
      }
      var j := IndexOf(es, k');
      if j < |es| && j != i {
        IndexOfDistinct(es', if j < i then j else j - 1);
      } else {
        forall q | 0 <= q < |es'| ensures es'[q].0 != k' {
          var p := if q < i then q else q + 1;
          assert es'[q] == es[p];
        }
      }
    }
  }

  /** Delete keeps the relative order of all other keys. */
  lemma RemoveKeys<K, V>(es: seq<(K, V)>, k: K)
    requires DistinctKeys(es)
    ensures k !in Keys(Remove(es, k))
    ensures var i := IndexOf(es, k);
      Keys(Remove(es, k)) == if i < |es| then Keys(es)[..i] + Keys(es)[i + 1..] else Keys(es)
  {
    var i := IndexOf(es, k);
    var es' := Remove(es, k);
    RemoveLookup(es, k, k);
    IndexOfKeys(es', k);
    if i < |es| {
      var ks := Keys(es);
      CutAt(es, i, es');
      CutAt(ks, i, ks[..i] + ks[i + 1..]);
      var cut := ks[..i] + ks[i + 1..];
      assert |Keys(es')| == |cut|;
      forall q | 0 <= q < |cut| ensures Keys(es')[q] == cut[q] {
        var p := if q < i then q else q + 1;
        assert cut[q] == ks[p] && es'[q] == es[p];
      }
    }
  }

  /** Popping returns the oldest or newest entry and deletes exactly its key. */
  lemma PopEnds<K, V>(es: seq<(K, V)>, last: bool)
    requires DistinctKeys(es)
    ensures Pop(es, last).0 == if last then Last(es) else First(es)
    ensures es != [] ==> Pop(es, last).1 == if last then es[..|es| - 1] else es[1..]
    ensures es == [] ==> Pop(es, last).1 == []
  {
    if es != [] && last {
      IndexOfDistinct(es, |es| - 1);
    }
  }

  /** Repeated PopFirst drains the map oldest first. */
  lemma {:induction false} DrainFirst<K, V>(es: seq<(K, V)>)
    requires DistinctKeys(es)
    ensures Drain(es, false) == es
  {
    if es != [] {
      PopEnds(es, false);
      assert Drain(es, false) == [es[0]] + Drain(es[1..], false);
      DrainFirst(es[1..]);
    }
  }

  /** Repeated PopLast drains the map newest first. */
  lemma {:induction false} DrainLast<K, V>(es: seq<(K, V)>)
    requires DistinctKeys(es)
    ensures Drain(es, true) == Reverse(es)
  {
    if es != [] {
      var init := es[..|es| - 1];
      PopEnds(es, true);
      assert Drain(es, true) == [es[|es| - 1]] + Drain(init, true);
      DrainLast(init);
      assert es == init + [es[|es| - 1]];
      ReverseSnoc(init, es[|es| - 1]);
    }
  }

  /** Move neither adds, drops nor changes entries: it permutes them. */
  lemma MovePermutes<K, V>(es: seq<(K, V)>, k: K, last: bool)
    requires DistinctKeys(es)
    ensures DistinctKeys(Move(es, k, last))
    ensures multiset(Move(es, k, last)) == multiset(es)
  {
    var i := IndexOf(es, k);
    if i < |es| {
      var rest := es[..i] + es[i + 1..];
      assert multiset(es) == multiset(rest) + multiset{es[i]} by {
        assert es == es[..i] + [es[i]] + es[i + 1..];
      }
      RemoveLookup(es, k, k);
      assert Remove(es, k) == rest;
      forall q | 0 <= q < |rest| ensures rest[q].0 != k {
        assert IndexOf(rest, k) == |rest|;
      }
      if last {
        MoveDistinct(rest, es[i], true);
      } else {
        MoveDistinct(rest, es[i], false);
      }
    }
  }

  /** An entry whose key is new keeps the keys distinct at either end. */
  lemma MoveDistinct<K, V>(rest: seq<(K, V)>, e: (K, V), last: bool)
    requires DistinctKeys(rest)
    requires forall q :: 0 <= q < |rest| ==> rest[q].0 != e.0
    ensures DistinctKeys(if last then rest + [e] else [e] + rest)
  {
    var s := if last then rest + [e] else [e] + rest;
    forall a, b | 0 <= a < b < |s| ensures s[a].0 != s[b].0 {
      if last {
        assert a < |rest| && s[a] == rest[a];
      } else {
        assert 0 < b && s[b] == rest[b - 1];
      }
    }
  }

  /** Move keeps the value of every key. */
  lemma MoveLookup<K, V>(es: seq<(K, V)>, k: K, last: bool, k': K)
    requires DistinctKeys(es)
    ensures Lookup(Move(es, k, last), k') == Lookup(es, k')
  {
    var es' := Move(es, k, last);
    MovePermutes(es, k, last);
    assert forall p :: p in es <==> p in es' by {
      forall p ensures p in es <==> p in es' {
        assert p in es <==> p in multiset(es);
      }
    }
    if Lookup(es, k').Some? {
      LookupMember(es, k', Lookup(es, k').value);
      LookupMember(es', k', Lookup(es, k').value);
    } else if Lookup(es', k').Some? {
      LookupMember(es, k', Lookup(es', k').value);
      LookupMember(es', k', Lookup(es', k').value);
    }
  }

  /** After Move the entry of k sits at the requested end, and the other entries keep
      their order: without that end, the entries are those left by deleting k. */
  lemma MoveEnd<K, V>(es: seq<(K, V)>, k: K, last: bool)
    requires DistinctKeys(es) && k in Keys(es)
    ensures var moved := Move(es, k, last);
      && (if last then Last(moved) else First(moved)) == Some((k, Lookup(es, k).value))
      && |moved| == |es|
      && (if last then moved[..|moved| - 1] else moved[1..]) == Remove(es, k)
  {
    IndexOfKeys(es, k);
    var i := IndexOf(es, k);
    var rest := es[..i] + es[i + 1..];
    assert (rest + [es[i]])[..|rest|] == rest;
    assert ([es[i]] + rest)[1..] == rest;
  }

  /** Moving the entry that already sits at the requested end changes nothing. */
  lemma MoveAtEnd<K, V>(es: seq<(K, V)>, k: K, last: bool)
    requires DistinctKeys(es) && es != []
    requires k == (if last then es[|es| - 1].0 else es[0].0)
    ensures Move(es, k, last) == es
  {
    if last {
      IndexOfDistinct(es, |es| - 1);
    }
  }

  /** MoveLast twice in a row (or MoveFirst twice) gives the order of a single call. */
  lemma MoveIdempotent<K, V>(es: seq<(K, V)>, k: K, last: bool)
    requires DistinctKeys(es)
    ensures Move(Move(es, k, last), k, last) == Move(es, k, last)
  {
    var moved := Move(es, k, last);
    MovePermutes(es, k, last);
    if k in Keys(es) {
      IndexOfKeys(es, k);
      MoveAtEnd(moved, k, last);
    }
  }

  /** With distinct keys, there are as many keys as entries. */
  lemma {:induction false} KeyCount<K, V>(es: seq<(K, V)>)
    requires DistinctKeys(es)
    ensures |set p | p in es :: p.0| == |es|
  {
    if es != [] {
      var tail := es[1..];
      KeyCount(tail);
      assert (set p | p in es :: p.0) == {es[0].0} + (set p | p in tail :: p.0);
      assert es[0].0 !in (set p | p in tail :: p.0);
    }
  }
}
