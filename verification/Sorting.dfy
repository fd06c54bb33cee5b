/** The stable library sort (`sort_by`) as a function, and what is needed to
    compare rankings: a sorted sequence is determined by its multiset. */
module Sorting {

  ghost predicate TotalPreorder<T(!new)>(leq: (T, T) -> bool) {
    && (forall x, y :: leq(x, y) || leq(y, x))
    && (forall x, y, z :: leq(x, y) && leq(y, z) ==> leq(x, z))
  }

  ghost predicate SortedBy<T>(leq: (T, T) -> bool, s: seq<T>) {
    forall i, j :: 0 <= i < j < |s| ==> leq(s[i], s[j])
  }

  function Insert<T>(leq: (T, T) -> bool, x: T, s: seq<T>): seq<T> {
    if s == [] || leq(x, s[0]) then [x] + s else [s[0]] + Insert(leq, x, s[1..])
  }

  /** Stable sort: an element stays before the equal elements that followed it. */
  function Sort<T>(leq: (T, T) -> bool, s: seq<T>): seq<T> {
    if s == [] then [] else Insert(leq, s[0], Sort(leq, s[1..]))
  }

  lemma {:induction false} InsertPermutes<T>(leq: (T, T) -> bool, x: T, s: seq<T>)
    ensures multiset(Insert(leq, x, s)) == multiset{x} + multiset(s)
    ensures |Insert(leq, x, s)| == |s| + 1
  {
    if s == [] || leq(x, s[0]) {
    } else {
      InsertPermutes(leq, x, s[1..]);
      assert s == [s[0]] + s[1..];
    }
  }

  lemma {:induction false} SortPermutes<T>(leq: (T, T) -> bool, s: seq<T>)
    ensures multiset(Sort(leq, s)) == multiset(s)
    ensures |Sort(leq, s)| == |s|
  {
    if s != [] {
      SortPermutes(leq, s[1..]);
      InsertPermutes(leq, s[0], Sort(leq, s[1..]));
      assert s == [s[0]] + s[1..];
    }
  }

  lemma {:induction false} InsertSorted<T(!new)>(leq: (T, T) -> bool, x: T, s: seq<T>)
    requires TotalPreorder(leq) && SortedBy(leq, s)
    ensures SortedBy(leq, Insert(leq, x, s))
  {
    if s == [] {
    } else if leq(x, s[0]) {
      var r := [x] + s;
      forall i, j | 0 <= i < j < |r| ensures leq(r[i], r[j]) {
        if i == 0 && j > 1 {
          assert leq(s[0], s[j - 1]);
        }
      }
    } else {
      InsertSorted(leq, x, s[1..]);
      var t := Insert(leq, x, s[1..]);
      InsertPermutes(leq, x, s[1..]);
      forall j | 0 <= j < |t| ensures leq(s[0], t[j]) {
        assert t[j] in multiset(t);
        if t[j] != x {
          assert t[j] in s[1..];
        }
      }
    }
  }

  lemma {:induction false} SortSorted<T(!new)>(leq: (T, T) -> bool, s: seq<T>)
    requires TotalPreorder(leq)
    ensures SortedBy(leq, Sort(leq, s))
  {
    if s != [] {
      SortSorted(leq, s[1..]);
      InsertSorted(leq, s[0], Sort(leq, s[1..]));
    }
  }

  /** What callers need of the library sort. */
  lemma SortOrders<T(!new)>(leq: (T, T) -> bool, s: seq<T>)
    requires TotalPreorder(leq)
    ensures SortedBy(leq, Sort(leq, s)) && |Sort(leq, s)| == |s|
    ensures multiset(Sort(leq, s)) == multiset(s)
    ensures forall x :: x in Sort(leq, s) <==> x in s
  {
    SortSorted(leq, s);
    SortPermutes(leq, s);
    forall x ensures x in Sort(leq, s) <==> x in s {
      assert x in Sort(leq, s) <==> x in multiset(Sort(leq, s));
      assert x in s <==> x in multiset(s);
    }
  }

  /** Two sorted sequences with the same elements agree, when ties are equal. */
  lemma {:induction false} SortedUnique<T(!new)>(leq: (T, T) -> bool, a: seq<T>, b: seq<T>)
    requires TotalPreorder(leq) && SortedBy(leq, a) && SortedBy(leq, b)
    requires forall x, y :: leq(x, y) && leq(y, x) ==> x == y
    requires multiset(a) == multiset(b)
    ensures a == b
  {
    assert |a| == |multiset(a)| == |multiset(b)| == |b|;
    if a != [] {
      SortedHeadLeast(leq, a, b[0]);
      SortedHeadLeast(leq, b, a[0]);
      MultisetTail(a);
      MultisetTail(b);
      SortedUnique(leq, a[1..], b[1..]);
    }
  }

  lemma SortedHeadLeast<T(!new)>(leq: (T, T) -> bool, a: seq<T>, x: T)
    requires TotalPreorder(leq) && SortedBy(leq, a) && a != []
    ensures x in multiset(a) ==> leq(a[0], x)
  {
    if x in multiset(a) {
      var i :| 0 <= i < |a| && a[i] == x;
    }
  }

  lemma MultisetTail<T>(a: seq<T>)
    requires a != []
    ensures multiset(a) == multiset{a[0]} + multiset(a[1..])
    ensures a[0] in multiset(a)
    ensures multiset(a[1..]) == multiset(a) - multiset{a[0]}
  {
    assert a == [a[0]] + a[1..];
  }

  function Map<A, B>(f: A -> B, s: seq<A>): (r: seq<B>)
    ensures |r| == |s|
    ensures forall i :: 0 <= i < |s| ==> r[i] == f(s[i])
  {
    seq(|s|, i requires 0 <= i < |s| => f(s[i]))
  }

  function Take<T>(s: seq<T>, n: nat): seq<T> {
    if n <= |s| then s[..n] else s
  }

  lemma TakeIsBest<T>(leq: (T, T) -> bool, sorted: seq<T>, limit: nat)
    requires SortedBy(leq, sorted)
    ensures forall h, o :: h in Take(sorted, limit) && o in sorted && o !in Take(sorted, limit) ==> leq(h, o)
  {
    var top := Take(sorted, limit);
    forall h, o | h in top && o in sorted && o !in top ensures leq(h, o) {
      var i :| 0 <= i < |top| && top[i] == h;
      var j :| 0 <= j < |sorted| && sorted[j] == o;
    }
  }

  ghost predicate StrictlySorted<T>(leq: (T, T) -> bool, s: seq<T>) {
    forall i, j :: 0 <= i < j < |s| ==> leq(s[i], s[j]) && !leq(s[j], s[i])
  }

  /** Sorting distinct elements without ties and cutting the list keeps the best. */
  lemma SortAndCut<T(!new)>(leq: (T, T) -> bool, s: seq<T>, limit: nat)
    requires TotalPreorder(leq) && forall x, y :: leq(x, y) && leq(y, x) ==> x == y
    requires forall i, j :: 0 <= i < j < |s| ==> s[i] != s[j]
    ensures var top := Take(Sort(leq, s), limit);
      && StrictlySorted(leq, top)
      && |top| == (if limit <= |s| then limit else |s|)
      && (forall x :: x in top ==> x in s)
      && (forall h, o :: h in top && o in s && o !in top ==> leq(h, o))
  {
    SortOrders(leq, s);
    PermutedDistinct(s, Sort(leq, s));
    TakeIsBest(leq, Sort(leq, s), limit);
    var top := Take(Sort(leq, s), limit);
    forall x | x in top ensures x in s {
      assert x in Sort(leq, s);
    }
  }

  lemma MapWithout<A, B>(f: A -> B, b: seq<A>, j: nat)
    requires j < |b|
    ensures multiset(Map(f, b)) == multiset{f(b[j])} + multiset(Map(f, b[..j] + b[j + 1..]))
  {
    var m := Map(f, b);
    assert Map(f, b[..j] + b[j + 1..]) == m[..j] + m[j + 1..];
    RemoveAt(m, j);
  }

  lemma {:induction false} MapPermutes<A, B>(f: A -> B, a: seq<A>, b: seq<A>)
    requires multiset(a) == multiset(b)
    ensures multiset(Map(f, a)) == multiset(Map(f, b))
    decreases |a|
  {
    if |a| == 0 || |b| == 0 {
      assert |multiset(a)| == |a| && |multiset(b)| == |b|;
      assert a == b;
    } else {
      var j, ra, rb := SplitOff(a, b);
      MapPermutes(f, ra, rb);
      MapWithout(f, a, 0);
      MapWithout(f, b, j);
    }
  }

  lemma SplitOff<T>(a: seq<T>, b: seq<T>) returns (j: nat, ra: seq<T>, rb: seq<T>)
    requires multiset(a) == multiset(b) && a != []
    ensures j < |b| && b[j] == a[0]
    ensures ra == a[..0] + a[1..] && rb == b[..j] + b[j + 1..]
    ensures multiset(ra) == multiset(rb) && |ra| < |a|
  {
    RemoveAt(a, 0);
    assert a[0] in multiset(b);
    j :| 0 <= j < |b| && b[j] == a[0];
    RemoveAt(b, j);
    ra, rb := a[..0] + a[1..], b[..j] + b[j + 1..];
  }

  lemma RemoveAt<T>(b: seq<T>, j: nat)
    requires j < |b|
    ensures multiset(b) == multiset{b[j]} + multiset(b[..j] + b[j + 1..])
    ensures multiset(b[..j] + b[j + 1..]) == multiset(b) - multiset{b[j]}
  {
    assert b == b[..j] + [b[j]] + b[j + 1..];
  }

  /** Distinct sequences over the same set are permutations of each other. */
  lemma {:induction false} DistinctPermutes<T>(a: seq<T>, b: seq<T>)
    requires forall i, j :: 0 <= i < j < |a| ==> a[i] != a[j]
    requires forall i, j :: 0 <= i < j < |b| ==> b[i] != b[j]
    requires forall x :: x in a <==> x in b
    ensures multiset(a) == multiset(b)
  {
    forall x ensures multiset(a)[x] == multiset(b)[x] {
      DistinctCount(a, x);
      DistinctCount(b, x);
    }
  }

  lemma {:induction false} DistinctCount<T>(a: seq<T>, x: T)
    requires forall i, j :: 0 <= i < j < |a| ==> a[i] != a[j]
    ensures multiset(a)[x] == if x in a then 1 else 0
  {
    if a != [] {
      DistinctCount(a[1..], x);
      assert a == [a[0]] + a[1..];
    }
  }

  lemma RepeatedCount<T>(b: seq<T>, i: nat, j: nat)
    requires i < j < |b| && b[i] == b[j]
    ensures multiset(b)[b[i]] >= 2
  {
    assert b == b[..j] + [b[j]] + b[j + 1..];
    assert b[i] in b[..j];
  }

  lemma PermutedDistinct<T>(a: seq<T>, b: seq<T>)
    requires multiset(a) == multiset(b)
    requires forall i, j :: 0 <= i < j < |a| ==> a[i] != a[j]
    ensures forall i, j :: 0 <= i < j < |b| ==> b[i] != b[j]
  {
    forall i, j | 0 <= i < j < |b| ensures b[i] != b[j] {
      DistinctCount(a, b[i]);
      if b[i] == b[j] {
        RepeatedCount(b, i, j);
      }
    }
  }
}
