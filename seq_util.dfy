/** Sequence helpers shared by the reference specification and the ring model. */
module SeqUtil {

  function Reverse<T>(s: seq<T>): seq<T>
  {
    seq(|s|, i requires 0 <= i < |s| => s[|s| - 1 - i])
  }

  predicate Distinct<T(==)>(s: seq<T>)
  {
    forall i, j :: 0 <= i < j < |s| ==> s[i] != s[j]
  }

  /** Position of the first x in s, or |s| when x does not occur. */
  function Find<T(==)>(s: seq<T>, x: T): (i: nat)
    ensures i <= |s|
    ensures i < |s| ==> s[i] == x
    ensures forall j :: 0 <= j < i ==> s[j] != x
  {
    if s == [] then 0 else if s[0] == x then 0 else 1 + Find(s[1..], x)
  }

  /** s with every occurrence of x dropped, the rest in order. */
  function Without<T(==)>(s: seq<T>, x: T): (r: seq<T>)
  {
    if s == [] then [] else (if s[0] == x then [] else [s[0]]) + Without(s[1..], x)
  }

  lemma FindIn<T>(s: seq<T>, x: T)
    ensures Find(s, x) < |s| <==> x in s
  {
  }

  lemma FindDistinct<T>(s: seq<T>, i: nat)
    requires Distinct(s) && i < |s|
    ensures Find(s, s[i]) == i
  {
  }

  lemma {:induction false} FindConcat<T>(a: seq<T>, b: seq<T>, x: T)
    ensures Find(a + b, x) == if x in a then Find(a, x) else |a| + Find(b, x)
  {
    if a == [] {
      assert a + b == b;
    } else {
      assert (a + b)[0] == a[0] && (a + b)[1..] == a[1..] + b;
      assert x in a <==> x == a[0] || x in a[1..];
      FindConcat(a[1..], b, x);
    }
  }

  lemma {:induction false} WithoutAbsent<T>(s: seq<T>, x: T)
    requires x !in s
    ensures Without(s, x) == s
  {
    if s != [] {
      WithoutAbsent(s[1..], x);
    }
  }

  lemma {:induction false} WithoutConcat<T>(a: seq<T>, b: seq<T>, x: T)
    ensures Without(a + b, x) == Without(a, x) + Without(b, x)
  {
    if a == [] {
      assert a + b == b;
    } else {
      assert (a + b)[0] == a[0] && (a + b)[1..] == a[1..] + b;
      WithoutConcat(a[1..], b, x);
    }
  }

  lemma WithoutCons<T>(y: T, s: seq<T>, x: T)
    requires y != x
    ensures Without([y] + s, x) == [y] + Without(s, x)
  {
    assert ([y] + s)[1..] == s;
  }

  /** The elements of s with the i-th one dropped, by position. */
  lemma CutAt<T>(s: seq<T>, i: nat, c: seq<T>)
    requires i < |s| && c == s[..i] + s[i + 1..]
    ensures |c| == |s| - 1
    ensures forall p :: 0 <= p < |c| ==> c[p] == s[if p < i then p else p + 1]
  {
  }

  lemma ReverseSnoc<T>(s: seq<T>, x: T)
    ensures Reverse(s + [x]) == [x] + Reverse(s)
  {
  }

  /** Dropping the i-th element of a suffix of a sequence without repetitions. */
  lemma WithoutAt<T>(s: seq<T>, p: nat, i: nat)
    requires Distinct(s) && p <= i < |s|
    ensures Without(s[p..], s[i]) == s[p..i] + s[i + 1..]
  {
    var x, a, b := s[i], s[p..i], s[i + 1..];
    assert s[p..] == a + [x] + b;
    assert x !in a by {
      forall q | 0 <= q < |a| ensures a[q] != x {
        assert a[q] == s[p + q];
      }
    }
    assert x !in b by {
      forall q | 0 <= q < |b| ensures b[q] != x {
        assert b[q] == s[i + 1 + q];
      }
    }
    WithoutMiddle(a, x, b);
  }

  lemma WithoutMiddle<T>(a: seq<T>, x: T, b: seq<T>)
    requires x !in a && x !in b
    ensures Without(a + [x] + b, x) == a + b
  {
    WithoutConcat(a + [x], b, x);
    WithoutConcat(a, [x], x);
    assert Without([x], x) == [];
    WithoutAbsent(a, x);
    WithoutAbsent(b, x);
  }
}
