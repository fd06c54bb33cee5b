/** Nearest-neighbour search over a collection: exact scans, graph over-fetch
    past tombstones, and the filtered planner (crates/veclite/src/collection.rs).
    The graph is an oracle; every result below says what it needs of it. */
module Search {
  import opened Core
  import opened Collections
  import opened Filters
  import opened PayloadIndex
  import opened Ranking
  import opened Slots
  import opened Sorting

  /** The scoring kernels are parameters: metric, query, stored vector. */
  type Kernel = (Metric, seq<real>, seq<real>) -> real

  /** The neighbours and distances a graph returns for a query, `k` and `ef`. */
  type Oracle = (Graph, seq<real>, nat, nat) -> seq<Scored>

  datatype Query = Query(vector: seq<real>, metric: Metric, dim: nat, kernel: Kernel)

  datatype Hit = Hit(id: string, score: real, payload: Option<Value>, vector: Option<seq<real>>)

  const SMALL_EXACT_MAX := 256
  const POSTFILTER_MIN_LIVE := 512
  const EF_MAX := 4096

  function DistanceToScore(metric: Metric, distance: real): real {
    if metric == Cosine then 1.0 - distance else distance
  }

  // ----- the oracle's contract ----------------------------------------------

  ghost predicate SoundAnswer(g: Graph, k: nat, found: seq<Scored>) {
    && |found| <= k
    && DistinctSlots(found)
    && forall i :: 0 <= i < |found| ==> found[i].0 in g.nodes
  }

  /** The graph returns distinct inserted nodes; nothing is said about which. */
  ghost predicate Sound(oracle: Oracle) {
    forall g: Graph, q: seq<real>, k: nat, ef: nat :: SoundAnswer(g, k, oracle(g, q, k, ef))
  }

  /** The distance of a stored vector, over which the graph works. */
  function Distance(query: Query, v: seq<real>): real {
    var score := query.kernel(query.metric, query.vector, v);
    if query.metric == Cosine then 1.0 - score else score
  }

  /** A distance read back is the score. */
  lemma DistanceReadsBack(query: Query, v: seq<real>)
    ensures DistanceToScore(query.metric, Distance(query, v)) == query.kernel(query.metric, query.vector, v)
  {
  }

  ghost predicate TrueDistances(query: Query, g: Graph, found: seq<Scored>) {
    forall i :: 0 <= i < |found| ==> found[i].0 in g.nodes && found[i].1 == Distance(query, g.nodes[found[i].0])
  }

  ghost predicate ExactAnswer(query: Query, g: Graph, k: nat, found: seq<Scored>) {
    && SoundAnswer(g, k, found)
    && |found| == Min(k, |g.nodes|)
    && TrueDistances(query, g, found)
    && (forall i, j :: 0 <= i < j < |found| ==> found[i].1 <= found[j].1)
    && (forall i, s :: 0 <= i < |found| && s in g.nodes && (forall j :: 0 <= j < |found| ==> found[j].0 != s) ==>
          found[i].1 <= Distance(query, g.nodes[s]))
  }

  /** For this query the graph returns the true nearest nodes, nearest first. */
  ghost predicate Exact(oracle: Oracle, query: Query) {
    && query.metric != DotProduct
    && forall g: Graph, k: nat, ef: nat :: ExactAnswer(query, g, k, oracle(g, query.vector, k, ef))
  }

  // ----- the full scan ------------------------------------------------------

  function ScoreAt(d: Data, query: Query, slot: nat): real
    requires Shape(d, query.dim) && slot < |d.ids|
  {
    query.kernel(query.metric, query.vector, Row(d, query.dim, slot))
  }

  predicate Matching(d: Data, f: Filter, slot: nat)
    requires |d.payloads| == |d.ids|
  {
    Live(d, slot) && f.Matches(d.payloads[slot])
  }

  function FilterOf(filter: Option<Filter>): Filter {
    if filter.Some? then filter.value else NO_FILTER
  }

  /** Every live slot that matches the filter, with its exact score, in slot order. */
  function ScanBelow(d: Data, query: Query, f: Filter, n: nat): seq<Scored>
    requires Shape(d, query.dim) && n <= |d.ids|
  {
    if n == 0 then []
    else ScanBelow(d, query, f, n - 1) + if Matching(d, f, n - 1) then [(n - 1, ScoreAt(d, query, n - 1))] else []
  }

  function Scan(d: Data, query: Query, f: Filter): seq<Scored>
    requires Shape(d, query.dim)
  {
    ScanBelow(d, query, f, |d.ids|)
  }

  lemma {:induction false} ScanMembers(d: Data, query: Query, f: Filter, n: nat)
    requires Shape(d, query.dim) && n <= |d.ids|
    ensures forall h :: h in ScanBelow(d, query, f, n) <==>
      h.0 < n && Matching(d, f, h.0) && h.1 == ScoreAt(d, query, h.0)
    ensures DistinctSlots(ScanBelow(d, query, f, n))
  {
    if n > 0 {
      ScanMembers(d, query, f, n - 1);
      var before := ScanBelow(d, query, f, n - 1);
      forall i | 0 <= i < |before| ensures before[i].0 < n - 1 {
        assert before[i] in before;
      }
    }
  }

  lemma {:induction false} ScanAllIsLive(d: Data, query: Query, n: nat)
    requires Valid(d, query.dim) && n <= |d.ids|
    ensures |ScanBelow(d, query, NO_FILTER, n)| == |LiveSlots(d, n)|
  {
    if n > 0 {
      ScanAllIsLive(d, query, n - 1);
    }
  }

  /** The points of a list that match a filter. */
  function Chosen(l: seq<Point>, f: Filter): seq<Point> {
    if l == [] then []
    else Chosen(l[..|l| - 1], f) + if f.Matches(l[|l| - 1].payload) then [l[|l| - 1]] else []
  }

  lemma ChosenNext(d: Data, f: Filter, dim: nat, n: nat)
    requires Shape(d, dim) && n < |d.ids|
    ensures Chosen(PointsBelow(d, dim, n + 1), f) == Chosen(PointsBelow(d, dim, n), f) +
      if Matching(d, f, n) then [PointAt(d, dim, n)] else []
  {
    var before, p := PointsBelow(d, dim, n), PointAt(d, dim, n);
    if Live(d, n) {
      assert (before + [p])[..|before|] == before;
    } else {
      assert PointsBelow(d, dim, n + 1) == before;
    }
  }

  lemma {:induction false} ScanCounts(d: Data, query: Query, f: Filter, n: nat)
    requires Shape(d, query.dim) && n <= |d.ids|
    ensures |ScanBelow(d, query, f, n)| == |Chosen(PointsBelow(d, query.dim, n), f)|
  {
    if n > 0 {
      ScanCounts(d, query, f, n - 1);
      ChosenNext(d, f, query.dim, n - 1);
      hide Chosen, PointsBelow, Matching;
    }
  }

  /** The same scan restricted to a candidate set. */
  function ScanAmong(d: Data, query: Query, f: Filter, among: set<nat>, n: nat): seq<Scored>
    requires Shape(d, query.dim) && n <= |d.ids|
  {
    if n == 0 then []
    else
      var front := ScanAmong(d, query, f, among, n - 1);
      if n - 1 in among && Matching(d, f, n - 1) then front + [(n - 1, ScoreAt(d, query, n - 1))] else front
  }

  lemma {:induction false} AmongSkips(d: Data, query: Query, f: Filter, among: set<nat>, m: nat, n: nat)
    requires Shape(d, query.dim) && m <= n <= |d.ids|
    requires forall s :: m <= s < n ==> s !in among
    ensures ScanAmong(d, query, f, among, n) == ScanAmong(d, query, f, among, m)
  {
    if m < n {
      AmongSkips(d, query, f, among, m, n - 1);
    }
  }

  lemma {:induction false} AmongMembers(d: Data, query: Query, f: Filter, among: set<nat>, n: nat)
    requires Shape(d, query.dim) && n <= |d.ids|
    ensures forall h :: h in ScanAmong(d, query, f, among, n) ==> h.0 in among && h in ScanBelow(d, query, f, n)
    ensures DistinctSlots(ScanAmong(d, query, f, among, n))
  {
    if n > 0 {
      AmongMembers(d, query, f, among, n - 1);
      ScanMembers(d, query, f, n - 1);
      var before := ScanAmong(d, query, f, among, n - 1);
      forall i | 0 <= i < |before| ensures before[i].0 < n - 1 {
        assert before[i] in before;
      }
    }
  }

  lemma {:induction false} AmongAll(d: Data, query: Query, f: Filter, among: set<nat>, n: nat)
    requires Shape(d, query.dim) && n <= |d.ids|
    requires forall s :: 0 <= s < n && Matching(d, f, s) ==> s in among
    ensures ScanAmong(d, query, f, among, n) == ScanBelow(d, query, f, n)
  {
    if n > 0 {
      AmongAll(d, query, f, among, n - 1);
    }
  }

  /** Scoring candidates only equals the scan exactly when they cover every match. */
  lemma AmongCovers(d: Data, query: Query, f: Filter, among: set<nat>)
    requires Shape(d, query.dim)
    ensures ScanAmong(d, query, f, among, |d.ids|) == Scan(d, query, f)
      <==> forall s :: 0 <= s < |d.ids| && Matching(d, f, s) ==> s in among
  {
    var n := |d.ids|;
    ScanMembers(d, query, f, n);
    AmongMembers(d, query, f, among, n);
    if forall s :: 0 <= s < n && Matching(d, f, s) ==> s in among {
      AmongAll(d, query, f, among, n);
    } else {
      var s: nat :| s < n && Matching(d, f, s) && s !in among;
      assert (s, ScoreAt(d, query, s)) in Scan(d, query, f);
    }
  }

  // ----- exact passes -------------------------------------------------------

  method BruteForce(c: CollectionData, query: Query) returns (out: seq<Scored>)
    requires Valid(c.Model(), query.dim)
    ensures out == Scan(c.Model(), query, NO_FILTER)
  {
    out := [];
    for slot := 0 to |c.ids|
      invariant out == ScanBelow(c.Model(), query, NO_FILTER, slot)
    {
      var live := c.IsLive(slot);
      if live {
        var v := c.VectorAt(slot, query.dim);
        out := out + [(slot, query.kernel(query.metric, query.vector, v))];
      }
    }
  }

  method FilteredScan(c: CollectionData, query: Query, f: Filter) returns (out: seq<Scored>)
    requires Valid(c.Model(), query.dim)
    ensures out == Scan(c.Model(), query, f)
  {
    out := [];
    for slot := 0 to |c.ids|
      invariant out == ScanBelow(c.Model(), query, f, slot)
    {
      var live := c.IsLive(slot);
      if live && f.Matches(c.payloads[slot]) {
        var v := c.VectorAt(slot, query.dim);
        out := out + [(slot, query.kernel(query.metric, query.vector, v))];
      }
    }
  }

  lemma {:induction false} Least(s: set<nat>) returns (least: nat)
    requires s != {}
    ensures least in s && forall y :: y in s ==> least <= y
  {
    var first :| first in s;
    least := first;
    if s != {first} {
      var other := Least(s - {first});
      least := if first <= other then first else other;
      forall y | y in s ensures least <= y {
        assert y == first || y in s - {first};
      }
    } else {
      assert forall y :: y in s ==> y == first;
    }
  }

  ghost predicate Increasing(r: seq<nat>) {
    forall i, j :: 0 <= i < j < |r| ==> r[i] < r[j]
  }

  /** Iterate a slot set in ascending order, as the bitmap does. */
  method Ascending(s: set<nat>) returns (r: seq<nat>)
    ensures Increasing(r) && forall x :: x in r <==> x in s
  {
    r := [];
    var rest := s;
    while rest != {}
      invariant rest <= s && Increasing(r)
      invariant forall x :: x in r <==> x in s && x !in rest
      invariant forall x, y :: x in r && y in rest ==> x < y
      decreases |rest|
    {
      ghost var least := Least(rest);
      var x :| x in rest && forall y :: y in rest ==> x <= y;
      rest := rest - {x};
      forall i | 0 <= i < |r| ensures r[i] < x {
        assert r[i] in r;
      }
      r := r + [x];
    }
  }

  /** Where the walk over an ascending candidate list stands after `i` of them. */
  function Reached(order: seq<nat>, i: nat, total: nat): nat
    requires i <= |order|
  {
    if i == 0 then 0 else Min(order[i - 1] + 1, total)
  }

  /** Between one candidate and the next nothing is scored. */
  lemma NothingBetween(d: Data, query: Query, f: Filter, order: seq<nat>, among: set<nat>, i: nat, upto: nat)
    requires Shape(d, query.dim) && Increasing(order) && forall x :: x in order <==> x in among
    requires i <= |order| && Reached(order, i, |d.ids|) <= upto <= |d.ids|
    requires i < |order| ==> upto <= order[i]
    ensures ScanAmong(d, query, f, among, upto) == ScanAmong(d, query, f, among, Reached(order, i, |d.ids|))
  {
    forall s | Reached(order, i, |d.ids|) <= s < upto ensures s !in among {
      forall j | 0 <= j < |order| ensures order[j] != s {
        assert j < i ==> order[j] <= order[i - 1];
        assert j > i ==> order[i] < order[j];
      }
    }
    AmongSkips(d, query, f, among, Reached(order, i, |d.ids|), upto);
  }

  /** Score the candidate slots only, in ascending order, each against the full filter. */
  method ScoreCandidates(c: CollectionData, query: Query, f: Filter, candidates: set<nat>) returns (out: seq<Scored>)
    requires Valid(c.Model(), query.dim)
    ensures out == ScanAmong(c.Model(), query, f, candidates, |c.ids|)
  {
    out := [];
    var order := Ascending(candidates);
    for i := 0 to |order|
      invariant out == ScanAmong(c.Model(), query, f, candidates, Reached(order, i, |c.ids|))
    {
      var slot := order[i];
      assert slot in candidates && (i > 0 ==> order[i - 1] < slot);
      if slot < |c.ids| {
        NothingBetween(c.Model(), query, f, order, candidates, i, slot);
        var live := c.IsLive(slot);
        if live && f.Matches(c.payloads[slot]) {
          var v := c.VectorAt(slot, query.dim);
          out := out + [(slot, query.kernel(query.metric, query.vector, v))];
        }
      } else {
        NothingBetween(c.Model(), query, f, order, candidates, i, |c.ids|);
      }
    }
    NothingBetween(c.Model(), query, f, order, candidates, |order|, |c.ids|);
  }

  // ----- graph answers ------------------------------------------------------

  /** The live matching part of a graph answer, with distances turned into scores. */
  function Kept(d: Data, metric: Metric, f: Filter, found: seq<Scored>): seq<Scored>
    requires |d.payloads| == |d.ids|
  {
    if found == [] then []
    else
      var h := found[|found| - 1];
      Kept(d, metric, f, found[..|found| - 1])
        + if Matching(d, f, h.0) then [(h.0, DistanceToScore(metric, h.1))] else []
  }

  lemma {:induction false} KeptMembers(d: Data, metric: Metric, f: Filter, found: seq<Scored>)
    requires |d.payloads| == |d.ids|
    ensures forall h :: h in Kept(d, metric, f, found) ==>
      Matching(d, f, h.0) && exists i ::
        0 <= i < |found| && found[i].0 == h.0 && DistanceToScore(metric, found[i].1) == h.1
    ensures forall i :: 0 <= i < |found| && Matching(d, f, found[i].0) ==>
      (found[i].0, DistanceToScore(metric, found[i].1)) in Kept(d, metric, f, found)
  {
    if found != [] {
      var last := |found| - 1;
      KeptMembers(d, metric, f, found[..last]);
      assert found == found[..last] + [found[last]];
    }
  }

  lemma {:induction false} KeptDistinct(d: Data, metric: Metric, f: Filter, found: seq<Scored>)
    requires |d.payloads| == |d.ids| && DistinctSlots(found)
    ensures DistinctSlots(Kept(d, metric, f, found))
  {
    if found != [] {
      var front, last := found[..|found| - 1], found[|found| - 1];
      KeptDistinct(d, metric, f, front);
      KeptMembers(d, metric, f, front);
      var k := Kept(d, metric, f, front);
      forall i | 0 <= i < |k| ensures k[i].0 != last.0 {
        assert k[i] in k;
      }
    }
  }

  lemma {:induction false} KeptSorted(d: Data, metric: Metric, f: Filter, found: seq<Scored>)
    requires |d.payloads| == |d.ids| && metric != DotProduct
    requires forall i, j :: 0 <= i < j < |found| ==> found[i].1 <= found[j].1
    ensures SortedBy(ByScore(metric), Kept(d, metric, f, found))
  {
    if found != [] {
      var front, last := found[..|found| - 1], found[|found| - 1];
      KeptSorted(d, metric, f, front);
      KeptMembers(d, metric, f, front);
      var k := Kept(d, metric, f, front);
      forall i | 0 <= i < |k| ensures NoWorse(metric, k[i].1, DistanceToScore(metric, last.1)) {
        assert k[i] in k;
      }
    }
  }

  /** Walk a graph answer and keep the first `limit` live matches. */
  method KeepFirst(
    c: CollectionData, metric: Metric, f: Filter, found: seq<Scored>, limit: nat, ghost dim: nat)
    returns (out: seq<Scored>)
    requires Shape(c.Model(), dim) && limit > 0
    requires forall i :: 0 <= i < |found| ==> found[i].0 < |c.ids|
    ensures out == Take(Kept(c.Model(), metric, f, found), limit)
  {
    assert |c.payloads| == |c.ids|;
    hide Shape, Valid;
    out := [];
    for i := 0 to |found|
      invariant out == Kept(c.Model(), metric, f, found[..i]) && |out| < limit
    {
      assert found[..i + 1][..i] == found[..i];
      var (slot, distance) := found[i];
      var live := c.IsLive(slot);
      if live && f.Matches(c.payloads[slot]) {
        out := out + [(slot, DistanceToScore(metric, distance))];
        if |out| == limit {
          KeptPrefix(c.Model(), metric, f, found, i + 1);
          return;
        }
      }
    }
    assert found[..|found|] == found;
  }

  lemma {:induction false} KeptPrefix(d: Data, metric: Metric, f: Filter, found: seq<Scored>, n: nat)
    requires |d.payloads| == |d.ids| && n <= |found|
    ensures Kept(d, metric, f, found[..n]) <= Kept(d, metric, f, found)
    decreases |found|
  {
    if n < |found| {
      var front := found[..|found| - 1];
      KeptPrefix(d, metric, f, front, n);
      assert front[..n] == found[..n];
    } else {
      assert found[..n] == found;
    }
  }

  // ----- what a path must deliver -------------------------------------------

  /** Enough distinct live matches, whichever they are. */
  ghost predicate Fills(d: Data, f: Filter, out: seq<Scored>, matching: nat, limit: nat)
    requires |d.payloads| == |d.ids|
  {
    && DistinctSlots(out)
    && (forall h :: h in out ==> Matching(d, f, h.0))
    && Min(limit, matching) <= |out| <= matching
  }

  lemma ScanFills(d: Data, query: Query, f: Filter, limit: nat)
    requires Valid(d, query.dim)
    ensures Fills(d, f, Scan(d, query, f), |Scan(d, query, f)|, limit)
    ensures BestOf(query.metric, Scan(d, query, f), Scan(d, query, f), limit)
  {
    ScanMembers(d, query, f, |d.ids|);
  }

  /** Distinct live matches never outnumber the scan. */
  lemma MatchesBounded(d: Data, query: Query, f: Filter, out: seq<Scored>)
    requires Valid(d, query.dim) && DistinctSlots(out) && forall h :: h in out ==> Matching(d, f, h.0)
    ensures |out| <= |Scan(d, query, f)|
  {
    var all := Scan(d, query, f);
    ScanMembers(d, query, f, |d.ids|);
    var a, b := Elems(Map(SlotOf, out)), Elems(Map(SlotOf, all));
    forall s | s in a ensures s in b {
      var i :| 0 <= i < |out| && out[i].0 == s;
      assert out[i] in out;
      assert (s, ScoreAt(d, query, s)) in all;
      var j :| 0 <= j < |all| && all[j] == (s, ScoreAt(d, query, s));
      assert Map(SlotOf, all)[j] == s;
    }
    DistinctSize(Map(SlotOf, out));
    DistinctSize(Map(SlotOf, all));
    SubsetSize(a, b);
  }

  lemma {:induction false} DistinctSize<T>(s: seq<T>)
    requires forall i, j :: 0 <= i < j < |s| ==> s[i] != s[j]
    ensures |Elems(s)| == |s|
  {
    if s != [] {
      DistinctSize(s[..|s| - 1]);
      assert Elems(s) == Elems(s[..|s| - 1]) + {s[|s| - 1]};
    } else {
      assert Elems(s) == {};
    }
  }

  lemma {:induction false} SubsetSize<T>(a: set<T>, b: set<T>)
    requires a <= b
    ensures |a| <= |b|
    ensures |a| == |b| ==> a == b
  {
    if a != {} {
      var x :| x in a;
      SubsetSize(a - {x}, b - {x});
    }
  }

  /** The first `limit` live matches of a sound answer, when there are that many. */
  lemma KeptFills(d: Data, query: Query, f: Filter, found: seq<Scored>, limit: nat)
    requires Valid(d, query.dim) && DistinctSlots(found)
    requires var k := Kept(d, query.metric, f, found); |k| >= Min(limit, |Scan(d, query, f)|)
    ensures Fills(d, f, Take(Kept(d, query.metric, f, found), limit), |Scan(d, query, f)|, limit)
  {
    var out := Take(Kept(d, query.metric, f, found), limit);
    KeptMembers(d, query.metric, f, found);
    KeptDistinct(d, query.metric, f, found);
    MatchesBounded(d, query, f, out);
  }

  /** With an exact answer those matches are the best ones. */
  lemma KeptBest(d: Data, query: Query, f: Filter, found: seq<Scored>, k: nat, limit: nat)
    requires Valid(d, query.dim) && query.metric != DotProduct && d.graph.Some?
    requires ExactAnswer(query, d.graph.value, k, found)
    requires |Kept(d, query.metric, f, found)| >= Min(limit, |Scan(d, query, f)|)
    ensures BestOf(query.metric, Take(Kept(d, query.metric, f, found), limit), Scan(d, query, f), limit)
  {
    var all, kept := Scan(d, query, f), Kept(d, query.metric, f, found);
    var out := Take(kept, limit);
    KeptDistinct(d, query.metric, f, found);
    KeptSorted(d, query.metric, f, found);
    KeptInScan(d, query, f, found);
    forall h, o | h in out && o in all && o !in out ensures NoWorse(query.metric, h.1, o.1) {
      if o in kept {
        var i :| 0 <= i < |out| && out[i] == h;
        var j :| 0 <= j < |kept| && kept[j] == o;
        assert ByScore(query.metric)(kept[i], kept[j]);
      } else {
        OutsideIsNoBetter(d, query, f, found, k, h, o);
      }
    }
  }

  lemma KeptInScan(d: Data, query: Query, f: Filter, found: seq<Scored>)
    requires Valid(d, query.dim) && d.graph.Some?
    requires TrueDistances(query, d.graph.value, found)
    ensures forall h :: h in Kept(d, query.metric, f, found) ==> h in Scan(d, query, f)
  {
    ScanMembers(d, query, f, |d.ids|);
    KeptMembers(d, query.metric, f, found);
    forall h | h in Kept(d, query.metric, f, found) ensures h in Scan(d, query, f) {
      var i :| 0 <= i < |found| && found[i].0 == h.0 && DistanceToScore(query.metric, found[i].1) == h.1;
      assert d.graph.value.nodes[h.0] == Row(d, query.dim, h.0);
    }
  }

  /** A live match the answer does not name is no better than any hit it does name. */
  lemma MatchInGraph(d: Data, query: Query, f: Filter, o: Scored)
    requires Valid(d, query.dim) && d.graph.Some? && o in Scan(d, query, f)
    ensures o.0 in d.graph.value.nodes && Matching(d, f, o.0)
    ensures o.1 == query.kernel(query.metric, query.vector, d.graph.value.nodes[o.0])
  {
    ScanMembers(d, query, f, |d.ids|);
  }

  lemma OutsideIsNoBetter(d: Data, query: Query, f: Filter, found: seq<Scored>, k: nat, h: Scored, o: Scored)
    requires Valid(d, query.dim) && query.metric != DotProduct && d.graph.Some?
    requires ExactAnswer(query, d.graph.value, k, found) && h in Kept(d, query.metric, f, found)
    requires o in Scan(d, query, f) && o !in Kept(d, query.metric, f, found)
    ensures NoWorse(query.metric, h.1, o.1)
  {
    MatchInGraph(d, query, f, o);
    assert |d.payloads| == |d.ids| && TrueDistances(query, d.graph.value, found);
    KeptMembers(d, query.metric, f, found);
    var m :| 0 <= m < |found| && found[m].0 == h.0 && DistanceToScore(query.metric, found[m].1) == h.1;
    forall n | 0 <= n < |found| ensures found[n].0 != o.0 {
      NamedIsKept(d, query, f, found, n, o);
    }
    hide *;
    NearerScoresNoWorse(query, d.graph.value, k, found, m, o.0);
  }

  lemma NearerScoresNoWorse(query: Query, g: Graph, k: nat, found: seq<Scored>, m: nat, s: nat)
    requires query.metric != DotProduct && ExactAnswer(query, g, k, found) && m < |found| && s in g.nodes
    requires forall n :: 0 <= n < |found| ==> found[n].0 != s
    ensures NoWorse(query.metric, DistanceToScore(query.metric, found[m].1),
                    query.kernel(query.metric, query.vector, g.nodes[s]))
  {
    assert found[m].1 <= Distance(query, g.nodes[s]);
    DistanceReadsBack(query, g.nodes[s]);
    hide ExactAnswer;
  }

  lemma NamedIsKept(d: Data, query: Query, f: Filter, found: seq<Scored>, n: nat, o: Scored)
    requires Valid(d, query.dim) && d.graph.Some? && TrueDistances(query, d.graph.value, found)
    requires o in Scan(d, query, f) && n < |found|
    ensures found[n].0 == o.0 ==> o in Kept(d, query.metric, f, found)
  {
    ScanMembers(d, query, f, |d.ids|);
    KeptMembers(d, query.metric, f, found);
    if found[n].0 == o.0 {
      assert d.graph.value.nodes[o.0] == Row(d, query.dim, o.0);
      assert (found[n].0, DistanceToScore(query.metric, found[n].1)) in Kept(d, query.metric, f, found);
    }
  }

  // ----- how far to over-fetch ----------------------------------------------

  /** The slots of an answer that are no longer live. */
  function DeadOf(d: Data, found: seq<Scored>): (r: seq<nat>)
    ensures forall s :: s in r ==> !Live(d, s) && exists i :: 0 <= i < |found| && found[i].0 == s
  {
    if found == [] then []
    else
      var front, last := DeadOf(d, found[..|found| - 1]), found[|found| - 1].0;
      assert forall i :: 0 <= i < |found| - 1 ==> found[..|found| - 1][i] == found[i];
      if Live(d, last) then front else front + [last]
  }

  /** Every neighbour of an unfiltered answer survives or is dead. */
  lemma {:induction false} KeptOrDead(d: Data, metric: Metric, found: seq<Scored>)
    requires |d.payloads| == |d.ids| && DistinctSlots(found)
    ensures |Kept(d, metric, NO_FILTER, found)| + |DeadOf(d, found)| == |found|
    ensures forall i, j :: 0 <= i < j < |DeadOf(d, found)| ==> DeadOf(d, found)[i] != DeadOf(d, found)[j]
  {
    if found != [] {
      KeptOrDead(d, metric, found[..|found| - 1]);
      var front := DeadOf(d, found[..|found| - 1]);
      forall i | 0 <= i < |front| ensures front[i] != found[|found| - 1].0 {
        assert front[i] in front;
      }
    }
  }

  function LiveSet(d: Data): set<nat> {
    Elems(LiveSlots(d, |d.ids|))
  }

  lemma LiveSetSize(d: Data, dim: nat)
    requires Valid(d, dim)
    ensures |LiveSet(d)| == |d.idToSlot| && forall s :: s in LiveSet(d) <==> Live(d, s)
  {
    SlotsPartition(d, dim);
    DistinctSize(LiveSlots(d, |d.ids|));
  }

  ghost predicate InGraph(g: Graph, found: seq<Scored>) {
    forall i :: 0 <= i < |found| ==> found[i].0 in g.nodes
  }

  /** As many neighbours as there are nodes leave nothing out. */
  lemma WholeGraph(g: Graph, found: seq<Scored>)
    requires DistinctSlots(found) && InGraph(g, found) && |found| == |g.nodes|
    ensures Elems(Map(SlotOf, found)) == g.nodes.Keys
  {
    var slots := Map(SlotOf, found);
    DistinctSize(slots);
    SubsetSize(Elems(slots), g.nodes.Keys);
  }

  /** The pigeonhole behind the over-fetch: among `limit` and one more neighbour
      per tombstone, or all nodes, enough are live. Nothing is asked of the graph
      but that it answers with that many distinct nodes. */
  lemma OverfetchSuffices(d: Data, dim: nat, metric: Metric, found: seq<Scored>, limit: nat)
    requires Valid(d, dim) && d.graph.Some? && DistinctSlots(found) && InGraph(d.graph.value, found)
    requires |found| == Min(limit + |d.tombstones|, |d.graph.value.nodes|)
    ensures |Kept(d, metric, NO_FILTER, found)| >= Min(limit, |d.idToSlot|)
  {
    KeptOrDead(d, metric, found);
    DistinctSize(DeadOf(d, found));
    LiveSetSize(d, dim);
    NodesAre(d, dim);
    assert forall i :: 0 <= i < |found| ==> found[i].0 in d.graph.value.nodes.Keys;
    hide *;
    FewAreDead(d, found, d.graph.value.nodes.Keys);
  }

  /** The dead among some nodes: no more than the tombstones, nor than the nodes that
      are not live. */
  lemma FewAreDead(d: Data, found: seq<Scored>, nodes: set<nat>)
    requires LiveSet(d) <= nodes && forall i :: 0 <= i < |found| ==> found[i].0 in nodes
    requires forall s :: s in LiveSet(d) <==> Live(d, s)
    requires forall s :: s in nodes && !Live(d, s) ==> s in d.tombstones
    ensures |Elems(DeadOf(d, found))| <= |d.tombstones|
    ensures |Elems(DeadOf(d, found))| <= |nodes| - |LiveSet(d)|
  {
    var dead := DeadOf(d, found);
    SubsetSize(Elems(dead), d.tombstones);
    assert |nodes - LiveSet(d)| == |nodes| - |LiveSet(d)|;
    SubsetSize(Elems(dead), nodes - LiveSet(d));
  }

  lemma NodesAre(d: Data, dim: nat)
    requires Valid(d, dim) && d.graph.Some?
    ensures LiveSet(d) <= d.graph.value.nodes.Keys
    ensures forall s :: s in d.graph.value.nodes && !Live(d, s) ==> s in d.tombstones
  {
    LiveSetSize(d, dim);
  }

  /** With an exact graph `limit + |tombstones|` neighbours are enough: the live
      ones among them are a best-of selection of all live slots. */
  lemma OverfetchIsBest(d: Data, query: Query, found: seq<Scored>, limit: nat)
    requires Valid(d, query.dim) && query.metric != DotProduct && d.graph.Some?
    requires ExactAnswer(query, d.graph.value, limit + |d.tombstones|, found)
    ensures BestOf(query.metric, Take(Kept(d, query.metric, NO_FILTER, found), limit), Scan(d, query, NO_FILTER), limit)
  {
    OverfetchSuffices(d, query.dim, query.metric, found, limit);
    LiveIsScan(d, query);
    KeptBest(d, query, NO_FILTER, found, limit + |d.tombstones|, limit);
  }

  lemma MatchIsKept(d: Data, query: Query, f: Filter, found: seq<Scored>, o: Scored)
    requires Valid(d, query.dim) && d.graph.Some? && Elems(Map(SlotOf, found)) == d.graph.value.nodes.Keys
    requires o in Scan(d, query, f)
    ensures o.0 in Map(SlotOf, Kept(d, query.metric, f, found))
  {
    var kept := Kept(d, query.metric, f, found);
    ScanMembers(d, query, f, |d.ids|);
    KeptMembers(d, query.metric, f, found);
    assert o.0 in Elems(Map(SlotOf, found));
    var j :| 0 <= j < |found| && Map(SlotOf, found)[j] == o.0;
    assert (found[j].0, DistanceToScore(query.metric, found[j].1)) in kept;
    var k :| 0 <= k < |kept| && kept[k] == (found[j].0, DistanceToScore(query.metric, found[j].1));
    assert Map(SlotOf, kept)[k] == o.0;
  }

  /** All nodes hold all matches. */
  lemma WholeGraphKeepsAll(d: Data, query: Query, f: Filter, found: seq<Scored>)
    requires Valid(d, query.dim) && d.graph.Some? && DistinctSlots(found) && InGraph(d.graph.value, found)
    requires |found| == |d.graph.value.nodes|
    ensures |Kept(d, query.metric, f, found)| >= |Scan(d, query, f)|
  {
    var kept, all := Map(SlotOf, Kept(d, query.metric, f, found)), Map(SlotOf, Scan(d, query, f));
    WholeGraph(d.graph.value, found);
    ScanMembers(d, query, f, |d.ids|);
    forall s | s in Elems(all) ensures s in Elems(kept) {
      var i :| 0 <= i < |all| && all[i] == s;
      MatchIsKept(d, query, f, found, Scan(d, query, f)[i]);
    }
    DistinctSize(all);
    SubsetSize(Elems(all), Elems(kept));
    ElemsBound(kept);
  }

  lemma {:induction false} ElemsBound<T>(s: seq<T>)
    ensures |Elems(s)| <= |s|
  {
    if s != [] {
      ElemsBound(s[..|s| - 1]);
      assert Elems(s) == Elems(s[..|s| - 1]) + {s[|s| - 1]};
    } else {
      assert Elems(s) == {};
    }
  }

  // ----- the planner --------------------------------------------------------

  function IndexSearch(oracle: Oracle, g: Graph, q: seq<real>, k: nat, ef: nat): Result<seq<Scored>, Error> {
    if 1 <= ef <= EF_MAX then Success(oracle(g, q, k, ef)) else Failure(InvalidArgument)
  }

  /** Which full scan a filtered search must agree with: the candidate set may
      only narrow it when it covers every match. */
  ghost predicate Covered(d: Data, f: Filter)
    requires |d.payloads| == |d.ids|
  {
    var candidates := CandidatesOf(d.indexes, f.must);
    candidates.None? || forall s :: 0 <= s < |d.ids| && Matching(d, f, s) ==> s in candidates.value
  }

  lemma ConformingCovers(d: Data, f: Filter, dim: nat)
    requires Valid(d, dim) && AllConform(d.indexes, d.payloads)
    ensures Covered(d, f)
  {
    ConformingIsCovered(d.indexes, d.payloads, f);
  }

  lemma GraphAnswers(oracle: Oracle, d: Data, query: Query, k: nat, ef: nat)
    requires Sound(oracle) && Valid(d, query.dim) && d.graph.Some?
    ensures SoundAnswer(d.graph.value, k, oracle(d.graph.value, query.vector, k, ef))
    ensures forall i :: 0 <= i < |oracle(d.graph.value, query.vector, k, ef)| ==>
      oracle(d.graph.value, query.vector, k, ef)[i].0 < |d.ids|
    ensures Exact(oracle, query) ==> ExactAnswer(query, d.graph.value, k, oracle(d.graph.value, query.vector, k, ef))
  {
    assert SoundAnswer(d.graph.value, k, oracle(d.graph.value, query.vector, k, ef));
  }

  lemma NodesBounded(d: Data, dim: nat)
    requires Valid(d, dim) && d.graph.Some?
    ensures |d.graph.value.nodes| <= |d.ids|
  {
    var all := seq(|d.ids|, i => i);
    DistinctSize(all);
    forall s | s in d.graph.value.nodes ensures s in Elems(all) {
      assert all[s] == s;
    }
    SubsetSize(d.graph.value.nodes.Keys, Elems(all));
  }

  /** Over-fetch from the graph with growing `fetch` until enough matches survive. */
  method PostFilter(
    c: CollectionData, query: Query, f: Filter, limit: nat, ef: nat, oracle: Oracle)
    returns (found: bool, out: seq<Scored>)
    requires Valid(c.Model(), query.dim) && Sound(oracle)
    requires c.graph.Some? && limit > 0 && 1 <= ef <= EF_MAX
    ensures found ==> |out| == limit && Fills(c.Model(), f, out, |Scan(c.Model(), query, f)|, limit)
    ensures found && Exact(oracle, query) ==> BestOf(query.metric, out, Scan(c.Model(), query, f), limit)
    ensures !found && Exact(oracle, query) ==> |Scan(c.Model(), query, f)| < limit
  {
    var total := |c.ids|;
    NodesBounded(c.Model(), query.dim);
    var fetch := Min(Max(limit * 4, 64), total);
    while true
      invariant 0 <= fetch <= total && (fetch == 0 ==> total == 0)
      decreases total - fetch
    {
      var wide := Min(Max(fetch, ef), EF_MAX);
      var answer := IndexSearch(oracle, c.graph.value, query.vector, fetch, wide);
      if answer.Failure? {
        return false, [];
      }
      GraphAnswers(oracle, c.Model(), query, fetch, wide);
      out := KeepFirst(c, query.metric, f, answer.value, limit, query.dim);
      if |out| >= limit {
        KeptFills(c.Model(), query, f, answer.value, limit);
        if Exact(oracle, query) {
          KeptBest(c.Model(), query, f, answer.value, fetch, limit);
        }
        return true, out;
      }
      if fetch >= total {
        if Exact(oracle, query) {
          WholeGraphKeepsAll(c.Model(), query, f, answer.value);
        }
        return false, [];
      }
      fetch := Min(fetch * 4, total);
    }
  }

  /** Filtered search: candidates only, graph over-fetch, or the full scan. */
  method FilteredPlanner(
    c: CollectionData, query: Query, f: Filter, limit: nat, ef: nat, oracle: Oracle) returns (out: seq<Scored>)
    requires Valid(c.Model(), query.dim) && Sound(oracle)
    requires limit > 0 && 1 <= ef <= EF_MAX
    ensures DistinctSlots(out) && forall h :: h in out ==> Matching(c.Model(), f, h.0)
    ensures Covered(c.Model(), f) ==> Fills(c.Model(), f, out, |Scan(c.Model(), query, f)|, limit)
    ensures Covered(c.Model(), f) && Exact(oracle, query) ==>
      BestOf(query.metric, out, Scan(c.Model(), query, f), limit)
    ensures c.graph.None? && Covered(c.Model(), f) ==> out == Scan(c.Model(), query, f)
  {
    var live := |c.idToSlot|;
    ScanFills(c.Model(), query, f, limit);
    var candidates := c.payloadIndexes.Candidates(f);
    if candidates.Some? {
      var selective := |candidates.value| * 4 <= live;
      if selective || live < POSTFILTER_MIN_LIVE || c.graph.None? {
        AmongCovers(c.Model(), query, f, candidates.value);
        AmongMembers(c.Model(), query, f, candidates.value, |c.ids|);
        ScanMembers(c.Model(), query, f, |c.ids|);
        out := ScoreCandidates(c, query, f, candidates.value);
        return;
      }
    }
    if live >= POSTFILTER_MIN_LIVE && c.graph.Some? {
      var found;
      found, out := PostFilter(c, query, f, limit, ef, oracle);
      if found {
        return;
      }
    }
    out := FilteredScan(c, query, f);
  }

  /** The live ones among `limit` neighbours and one more per tombstone. When this
      yields fewer than asked for the caller scans instead, which an exact graph
      never makes it do. */
  method OverFetch(c: CollectionData, query: Query, limit: nat, ef: nat, oracle: Oracle) returns (out: seq<Scored>)
    requires Valid(c.Model(), query.dim) && Sound(oracle) && c.graph.Some?
    requires limit > 0 && 1 <= ef <= EF_MAX
    ensures DistinctSlots(out) && (forall h :: h in out ==> Live(c.Model(), h.0)) && |out| <= limit
    ensures |out| >= Min(limit, |c.idToSlot|) ==>
      Fills(c.Model(), NO_FILTER, out, |Scan(c.Model(), query, NO_FILTER)|, limit)
    ensures Exact(oracle, query) ==>
      && |out| == Min(limit, |c.idToSlot|)
      && BestOf(query.metric, out, Scan(c.Model(), query, NO_FILTER), limit)
  {
    var fetch := limit + |c.tombstones|;
    var answer := IndexSearch(oracle, c.graph.value, query.vector, fetch, ef);
    GraphAnswers(oracle, c.Model(), query, fetch, ef);
    out := KeepFirst(c, query.metric, NO_FILTER, answer.value, limit, query.dim);
    LiveIsScan(c.Model(), query);
    KeptMembers(c.Model(), query.metric, NO_FILTER, answer.value);
    KeptDistinct(c.Model(), query.metric, NO_FILTER, answer.value);
    if Exact(oracle, query) {
      OverfetchSuffices(c.Model(), query.dim, query.metric, answer.value, limit);
      OverfetchIsBest(c.Model(), query, answer.value, limit);
    }
    if |out| >= Min(limit, |c.idToSlot|) {
      KeptFills(c.Model(), query, NO_FILTER, answer.value, limit);
    }
  }

  /** Unfiltered search: small sets exactly, otherwise the graph with room for tombstones. */
  method PlainSearch(c: CollectionData, query: Query, limit: nat, ef: nat, oracle: Oracle) returns (out: seq<Scored>)
    requires Valid(c.Model(), query.dim) && Sound(oracle)
    requires limit > 0 && 1 <= ef <= EF_MAX
    ensures Fills(c.Model(), NO_FILTER, out, |Scan(c.Model(), query, NO_FILTER)|, limit)
    ensures Exact(oracle, query) || c.graph.None? ==>
      BestOf(query.metric, out, Scan(c.Model(), query, NO_FILTER), limit)
  {
    ScanFills(c.Model(), query, NO_FILTER, limit);
    var live := |c.idToSlot|;
    if c.graph.Some? && live > Max(SMALL_EXACT_MAX, limit + |c.tombstones|) {
      out := OverFetch(c, query, limit, ef, oracle);
      if |out| >= Min(limit, live) {
        return;
      }
    }
    out := BruteForce(c, query);
  }

  lemma LiveIsScan(d: Data, query: Query)
    requires Valid(d, query.dim)
    ensures |Scan(d, query, NO_FILTER)| == |d.idToSlot|
  {
    ScanAllIsLive(d, query, |d.ids|);
    SlotsPartition(d, query.dim);
  }
}
