/** Ranked hits: what it means for a result to be a true top-`limit` of a set
    of scored slots, and that this fixes its scores. */
module Ranking {
  import opened Core
  import opened Sorting

  type Scored = (nat, real)

  predicate Similarity(metric: Metric) {
    metric == Cosine || metric == DotProduct
  }

  /** `a` ranks at least as high as `b`: similarities descend, distances ascend. */
  predicate NoWorse(metric: Metric, a: real, b: real) {
    if Similarity(metric) then a >= b else a <= b
  }

  function ByScore(metric: Metric): (Scored, Scored) -> bool {
    (a: Scored, b: Scored) => NoWorse(metric, a.1, b.1)
  }

  function ByReal(metric: Metric): (real, real) -> bool {
    (a: real, b: real) => NoWorse(metric, a, b)
  }

  function ScoreOf(h: Scored): real {
    h.1
  }

  function SlotOf(h: Scored): nat {
    h.0
  }

  function Scores(l: seq<Scored>): seq<real> {
    Map(ScoreOf, l)
  }

  function Ranked(metric: Metric, l: seq<Scored>, limit: nat): seq<Scored> {
    Take(Sort(ByScore(metric), l), limit)
  }

  ghost predicate DistinctSlots(l: seq<Scored>) {
    forall i, j :: 0 <= i < j < |l| ==> l[i].0 != l[j].0
  }

  /** The hits come from `all`, fill the limit, and beat every hit left out. */
  ghost predicate BestOf(metric: Metric, some: seq<Scored>, all: seq<Scored>, limit: nat) {
    && DistinctSlots(some)
    && (forall h :: h in some ==> h in all)
    && |some| >= Min(limit, |all|)
    && (forall h, o :: h in some && o in all && o !in some ==> NoWorse(metric, h.1, o.1))
  }

  /** As `BestOf`, in ranking order and cut to the limit. */
  ghost predicate TopOf(metric: Metric, top: seq<Scored>, all: seq<Scored>, limit: nat) {
    && BestOf(metric, top, all, limit)
    && |top| == Min(limit, |all|)
    && SortedBy(ByScore(metric), top)
  }

  function Others(all: seq<Scored>, some: seq<Scored>): seq<Scored> {
    if all == [] then []
    else Others(all[..|all| - 1], some) + if all[|all| - 1] in some then [] else [all[|all| - 1]]
  }

  lemma {:induction false} OthersMembers(all: seq<Scored>, some: seq<Scored>)
    ensures forall h :: h in Others(all, some) <==> h in all && h !in some
  {
    if all != [] {
      OthersMembers(all[..|all| - 1], some);
      assert all == all[..|all| - 1] + [all[|all| - 1]];
    }
  }

  lemma {:induction false} OthersDistinct(all: seq<Scored>, some: seq<Scored>)
    requires DistinctSlots(all)
    ensures DistinctSlots(Others(all, some))
  {
    if all != [] {
      var front, last := all[..|all| - 1], all[|all| - 1];
      OthersDistinct(front, some);
      OthersMembers(front, some);
      forall i | 0 <= i < |Others(front, some)| ensures Others(front, some)[i].0 != last.0 {
        assert Others(front, some)[i] in front;
      }
    }
  }

  lemma SplitPermutes(all: seq<Scored>, some: seq<Scored>)
    requires DistinctSlots(all) && DistinctSlots(some) && forall h :: h in some ==> h in all
    ensures multiset(all) == multiset(some + Others(all, some))
    ensures |all| == |some| + |Others(all, some)|
  {
    OthersMembers(all, some);
    OthersDistinct(all, some);
    var joined := some + Others(all, some);
    forall i, j | 0 <= i < j < |joined| ensures joined[i] != joined[j] {
      if i < |some| <= j {
        assert joined[i] in some && joined[j] in Others(all, some);
      }
    }
    DistinctPermutes(all, joined);
    assert |multiset(all)| == |all| && |multiset(joined)| == |joined|;
  }

  lemma ScoresSorted(metric: Metric, l: seq<Scored>)
    requires SortedBy(ByScore(metric), l)
    ensures SortedBy(ByReal(metric), Scores(l))
  {
    forall i, j | 0 <= i < j < |l| ensures NoWorse(metric, Scores(l)[i], Scores(l)[j]) {
      assert ByScore(metric)(l[i], l[j]);
    }
  }

  lemma SortFacts(metric: Metric, l: seq<Scored>)
    ensures var s := Sort(ByScore(metric), l);
      && |s| == |l| && multiset(s) == multiset(l) && SortedBy(ByScore(metric), s)
      && (forall h :: h in s <==> h in l)
      && (DistinctSlots(l) ==> DistinctSlots(s))
  {
    SortOrders(ByScore(metric), l);
    if DistinctSlots(l) {
      PermutedSlots(l, Sort(ByScore(metric), l));
    }
  }

  lemma PermutedSlots(l: seq<Scored>, s: seq<Scored>)
    requires DistinctSlots(l) && multiset(l) == multiset(s)
    ensures DistinctSlots(s)
  {
    MapPermutes(SlotOf, l, s);
    PermutedDistinct(Map(SlotOf, l), Map(SlotOf, s));
    forall i, j | 0 <= i < j < |s| ensures s[i].0 != s[j].0 {
      assert Map(SlotOf, s)[i] != Map(SlotOf, s)[j];
    }
  }

  lemma SortedJoin(metric: Metric, top: seq<Scored>, low: seq<Scored>)
    requires SortedBy(ByScore(metric), top) && SortedBy(ByScore(metric), low)
    requires forall h, o :: h in top && o in low ==> NoWorse(metric, h.1, o.1)
    ensures SortedBy(ByScore(metric), top + low)
  {
    forall i, j | 0 <= i < j < |top + low| ensures ByScore(metric)((top + low)[i], (top + low)[j]) {
      if i < |top| <= j {
        assert top[i] in top && low[j - |top|] in low;
      }
    }
  }

  lemma SortedScoresAgree(metric: Metric, a: seq<Scored>, b: seq<Scored>)
    requires SortedBy(ByScore(metric), a) && SortedBy(ByScore(metric), b) && multiset(a) == multiset(b)
    ensures Scores(a) == Scores(b)
  {
    MapPermutes(ScoreOf, a, b);
    ScoresSorted(metric, a);
    ScoresSorted(metric, b);
    SortedUnique(ByReal(metric), Scores(a), Scores(b));
  }

  /** Whatever produced it, a best-of selection ranks to the scores of the full ranking. */
  lemma BestScores(metric: Metric, some: seq<Scored>, all: seq<Scored>, limit: nat)
    requires DistinctSlots(all) && BestOf(metric, some, all, limit)
    ensures Scores(Ranked(metric, some, limit)) == Scores(Ranked(metric, all, limit))
  {
    var rest := Others(all, some);
    SplitPermutes(all, some);
    SortFacts(metric, some);
    SortFacts(metric, rest);
    SortFacts(metric, all);
    var top, low, full := Sort(ByScore(metric), some), Sort(ByScore(metric), rest), Sort(ByScore(metric), all);
    assert multiset(top + low) == multiset(full);
    assert forall o :: o in low ==> o in all && o !in some by { OthersMembers(all, some); }
    SortedJoin(metric, top, low);
    SortedScoresAgree(metric, top + low, full);
    TakeScores(top, low, full, limit);
  }

  lemma TakeScores(top: seq<Scored>, low: seq<Scored>, full: seq<Scored>, limit: nat)
    requires Scores(top + low) == Scores(full) && (limit <= |top| || low == [])
    ensures Scores(Take(top, limit)) == Scores(Take(full, limit))
  {
    var t, f := Scores(Take(top, limit)), Scores(Take(full, limit));
    assert |top + low| == |full|;
    forall i | 0 <= i < |t| ensures t[i] == f[i] {
      assert t[i] == Scores(top + low)[i];
      assert f[i] == Scores(full)[i];
    }
  }

  /** Ranking a best-of selection gives a top-`limit`. */
  lemma RankedIsTop(metric: Metric, some: seq<Scored>, all: seq<Scored>, limit: nat)
    requires BestOf(metric, some, all, limit) && |some| <= |all|
    ensures TopOf(metric, Ranked(metric, some, limit), all, limit)
  {
    SortFacts(metric, some);
    var s := Sort(ByScore(metric), some);
    var top := Ranked(metric, some, limit);
    forall h, o | h in top && o in all && o !in top ensures NoWorse(metric, h.1, o.1) {
      if o in some {
        var i :| 0 <= i < |top| && top[i] == h;
        var j :| 0 <= j < |s| && s[j] == o;
        assert j >= |top|;
        assert ByScore(metric)(s[i], s[j]);
      }
    }
  }

  /** All true top-`limit` results of the same hits show the same scores. */
  lemma TopScoresUnique(metric: Metric, top: seq<Scored>, all: seq<Scored>, limit: nat)
    requires DistinctSlots(all) && TopOf(metric, top, all, limit)
    ensures Scores(top) == Scores(Ranked(metric, all, limit))
  {
    BestScores(metric, top, all, limit);
    SortFacts(metric, top);
    var s := Sort(ByScore(metric), top);
    SortedScoresAgree(metric, s, top);
    assert Ranked(metric, top, limit) == s;
  }
}
