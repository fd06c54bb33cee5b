/** Strings in their bytewise order: ids of fused results, terms of a vocabulary. */
module Words {
  import opened Core
  import opened Sorting

  /** The length of a code point in UTF-8 (section 3 of RFC 3629). */
  function ByteWidth(c: char): nat {
    if c < '\U{80}' then 1 else if c < '\U{800}' then 2 else if c < '\U{10000}' then 3 else 4
  }

  function ByteLength(s: string): nat {
    if s == [] then 0 else ByteWidth(s[0]) + ByteLength(s[1..])
  }

  /** Bytewise order of strings; code point order is the same order. */
  predicate StrLeq(a: string, b: string) {
    a == "" || (b != "" && (a[0] < b[0] || (a[0] == b[0] && StrLeq(a[1..], b[1..]))))
  }

  lemma {:induction false} StrTotal(a: string, b: string)
    ensures StrLeq(a, b) || StrLeq(b, a)
    ensures StrLeq(a, b) && StrLeq(b, a) ==> a == b
  {
    if a != "" && b != "" {
      StrTotal(a[1..], b[1..]);
      assert a == [a[0]] + a[1..] && b == [b[0]] + b[1..];
    }
  }

  /** One is a prefix of the other, or they differ first where the smaller has the
      smaller character. */
  lemma {:induction false} StrLeqIff(a: string, b: string)
    ensures StrLeq(a, b) <==> a <= b || exists n :: 0 <= n < |a| && n < |b| && a[..n] == b[..n] && a[n] < b[n]
  {
    if a != "" && b != "" {
      if a[0] == b[0] {
        StrLeqIff(a[1..], b[1..]);
        assert a == [a[0]] + a[1..] && b == [b[0]] + b[1..];
        if n :| 0 <= n < |a[1..]| && n < |b[1..]| && a[1..][..n] == b[1..][..n] && a[1..][n] < b[1..][n] {
          assert a[..n + 1] == [a[0]] + a[1..][..n] && b[..n + 1] == [b[0]] + b[1..][..n];
          assert a[..n + 1] == b[..n + 1] && a[n + 1] < b[n + 1];
        }
        if n :| 0 <= n < |a| && n < |b| && a[..n] == b[..n] && a[n] < b[n] {
          assert n > 0;
          assert a[1..][..n - 1] == a[..n][1..] && b[1..][..n - 1] == b[..n][1..];
          assert a[1..][n - 1] < b[1..][n - 1];
        }
      } else if a[0] < b[0] {
        assert a[..0] == b[..0];
      } else {
        forall n | 0 < n < |a| && n < |b| ensures a[..n] != b[..n] {
          assert a[..n][0] != b[..n][0];
        }
      }
    }
  }

  lemma {:induction false} StrTransitive(a: string, b: string, c: string)
    requires StrLeq(a, b) && StrLeq(b, c)
    ensures StrLeq(a, c)
  {
    if a != "" && a[0] == b[0] && b[0] == c[0] {
      StrTransitive(a[1..], b[1..], c[1..]);
    }
  }

  lemma StrOrder()
    ensures TotalPreorder(StrLeq)
  {
    forall a: string, b: string ensures StrLeq(a, b) || StrLeq(b, a) {
      StrTotal(a, b);
    }
    forall a: string, b: string, c: string | StrLeq(a, b) && StrLeq(b, c) ensures StrLeq(a, c) {
      StrTransitive(a, b, c);
    }
  }

  /** In a sorted list a string unlike its predecessor did not occur before. */
  lemma NewString(all: seq<string>, i: nat)
    requires SortedBy(StrLeq, all) && i < |all| && (i == 0 || all[i] != all[i - 1])
    ensures all[i] !in all[..i]
  {
    forall m | 0 <= m < i ensures all[m] != all[i] {
      if m < i - 1 {
        assert StrLeq(all[m], all[i - 1]) && StrLeq(all[i - 1], all[i]);
        StrTotal(all[i - 1], all[i]);
      }
    }
  }

  lemma AddLast(ids: seq<string>, all: seq<string>, i: nat)
    requires SortedBy(StrLeq, all) && i < |all| && SortedBy(StrLeq, ids) && forall id :: id in ids <==> id in all[..i]
    ensures SortedBy(StrLeq, ids + [all[i]])
  {
    forall j | 0 <= j < |ids| ensures StrLeq(ids[j], all[i]) {
      assert ids[j] in all[..i];
    }
  }

  /** Drop repeats from a sorted list. */
  method Dedup(all: seq<string>) returns (ids: seq<string>)
    requires SortedBy(StrLeq, all)
    ensures Distinct(ids) && SortedBy(StrLeq, ids) && forall id :: id in ids <==> id in all
  {
    ids := [];
    for i := 0 to |all|
      invariant Distinct(ids) && SortedBy(StrLeq, ids)
      invariant forall id :: id in ids <==> id in all[..i]
    {
      if i == 0 || all[i] != all[i - 1] {
        NewString(all, i);
        AddLast(ids, all, i);
        ids := ids + [all[i]];
      } else {
        assert all[i - 1] in all[..i];
      }
    }
    assert all[..|all|] == all;
  }

  /** Every string of a list once, in order. */
  method SortedOnce(all: seq<string>) returns (ids: seq<string>)
    ensures Distinct(ids) && SortedBy(StrLeq, ids) && forall id :: id in ids <==> id in all
  {
    StrOrder();
    SortOrders(StrLeq, all);
    ids := Dedup(Sort(StrLeq, all));
  }
}
