/** Whole queries (`execute_query` in crates/veclite/src/collection.rs): what is
    refused, which hits are answered, and in which order. */
module Queries {
  import opened Core
  import opened Collections
  import opened Filters
  import opened Linear
  import opened PayloadIndex
  import opened Ranking
  import opened Search
  import opened Slots
  import opened Sorting

  /** Why a query is refused, in the order the checks are made. */
  function QueryError(
    config: Config, sqrt: real -> real, vector: seq<real>, limit: nat, ef: nat, filter: Option<Filter>): Option<Error>
  {
    if filter.Some? && !filter.value.Validate() then Some(InvalidArgument)
    else if limit == 0 then Some(InvalidArgument)
    else if |vector| != config.dimension then Some(DimensionMismatch(config.dimension, |vector|))
    else if !(1 <= ef <= EF_MAX) then Some(InvalidArgument)
    else if config.metric == Cosine && Norm(sqrt, vector) == 0.0 then Some(InvalidArgument)
    else None
  }

  /** Cosine queries are normalized. */
  function QueryOf(config: Config, sqrt: real -> real, vector: seq<real>, kernel: Kernel): Query
    requires config.metric == Cosine ==> Norm(sqrt, vector) != 0.0
  {
    var v := if config.metric == Cosine then Divide(vector, Norm(sqrt, vector)) else vector;
    Query(v, config.metric, config.dimension, kernel)
  }

  function HitAt(d: Data, dim: nat, h: Scored, withPayload: bool, withVector: bool): Hit
    requires Shape(d, dim) && h.0 < |d.ids|
  {
    Hit(d.ids[h.0], h.1, if withPayload then d.payloads[h.0] else None, if withVector then Some(Row(d, dim, h.0))
      else None)
  }

  ghost predicate Projects(d: Data, dim: nat, top: seq<Scored>, withPayload: bool, withVector: bool, hits: seq<Hit>)
    requires Shape(d, dim)
  {
    && |hits| == |top|
    && forall i :: 0 <= i < |top| ==> top[i].0 < |d.ids| && hits[i] == HitAt(d, dim, top[i], withPayload, withVector)
  }

  /** What a ranked answer owes its caller: distinct live matches in ranking
      order, `limit` of them or all there are, and the true top when `exact`. */
  ghost predicate Delivers(d: Data, query: Query, f: Filter, limit: nat, covered: bool, exact: bool, top: seq<Scored>)
    requires Shape(d, query.dim)
  {
    && DistinctSlots(top) && SortedBy(ByScore(query.metric), top)
    && (forall h :: h in top ==> Matching(d, f, h.0))
    && |top| <= limit
    && (covered ==> |top| == Min(limit, |Scan(d, query, f)|))
    && (covered && exact ==>
          && TopOf(query.metric, top, Scan(d, query, f), limit)
          && Scores(top) == Scores(Ranked(query.metric, Scan(d, query, f), limit)))
  }

  lemma RankedDelivers(d: Data, query: Query, f: Filter, limit: nat, covered: bool, exact: bool, found: seq<Scored>)
    requires Valid(d, query.dim) && DistinctSlots(found) && forall h :: h in found ==> Matching(d, f, h.0)
    requires covered ==> Fills(d, f, found, |Scan(d, query, f)|, limit)
    requires covered && exact ==> BestOf(query.metric, found, Scan(d, query, f), limit)
    ensures Delivers(d, query, f, limit, covered, exact, Ranked(query.metric, found, limit))
  {
    var all, sorted := Scan(d, query, f), Sort(ByScore(query.metric), found);
    ScanMembers(d, query, f, |d.ids|);
    SortFacts(query.metric, found);
    forall h | h in Ranked(query.metric, found, limit) ensures Matching(d, f, h.0) {
      assert h in sorted;
    }
    if covered && exact {
      RankedIsTop(query.metric, found, all, limit);
      BestScores(query.metric, found, all, limit);
    }
  }

  // ----- the answer in its caller's terms -----------------------------------

  /** Which queries are refused: a filter with a nested path, no limit, a vector of
      another dimension, a search width out of bounds, a zero vector under cosine. */
  ghost predicate Refusable(config: Config, vector: seq<real>, limit: nat, ef: nat, filter: Option<Filter>) {
    || (filter.Some? && !filter.value.Validate())
    || limit == 0 || |vector| != config.dimension || ef < 1 || ef > 4096
    || (config.metric == Cosine && forall i :: 0 <= i < |vector| ==> vector[i] == 0.0)
  }

  /** A wrong dimension is told, if filter and limit are fine. */
  function RefusalOf(config: Config, vector: seq<real>, limit: nat, filter: Option<Filter>): Error {
    if (filter.None? || filter.value.Validate()) && limit > 0 && |vector| != config.dimension
    then DimensionMismatch(config.dimension, |vector|) else InvalidArgument
  }

  /** The vector that is searched for: as given, or under cosine of unit length in the
      same direction. */
  ghost predicate Aligned(metric: Metric, vector: seq<real>, q: seq<real>) {
    && (metric != Cosine ==> q == vector)
    && (metric == Cosine ==> Dot(q, q) == 1.0 && exists c: real :: c > 0.0 && Multiple(vector, c, q))
  }

  /** Similarities never increase along the hits, distances never decrease. */
  ghost predicate InOrder(metric: Metric, hits: seq<Hit>) {
    && (metric == Cosine || metric == DotProduct ==>
          forall i, j :: 0 <= i < j < |hits| ==> hits[i].score >= hits[j].score)
    && (metric == Euclidean ==> forall i, j :: 0 <= i < j < |hits| ==> hits[i].score <= hits[j].score)
  }

  /** A hit shows a stored point that matches, with payload and vector as asked for. */
  ghost predicate Shows(f: Filter, withPayload: bool, withVector: bool, hit: Hit, p: Point) {
    && hit.id == p.id && f.Matches(p.payload)
    && (withPayload ==> hit.payload == p.payload) && (!withPayload ==> hit.payload == None)
    && (withVector ==> hit.vector == Some(p.vector)) && (!withVector ==> hit.vector == None)
  }

  ghost predicate ShownIn(l: seq<Point>, f: Filter, withPayload: bool, withVector: bool, hit: Hit) {
    exists p :: p in l && Shows(f, withPayload, withVector, hit, p)
  }

  ghost predicate AllShow(l: seq<Point>, f: Filter, withPayload: bool, withVector: bool, hits: seq<Hit>) {
    && (forall i :: 0 <= i < |hits| ==> ShownIn(l, f, withPayload, withVector, hits[i]))
    && (forall i, j :: 0 <= i < j < |hits| ==> hits[i].id != hits[j].id)
  }

  ghost predicate Omitted(hits: seq<Hit>, id: string) {
    forall i :: 0 <= i < |hits| ==> hits[i].id != id
  }

  /** Scores are what the kernel says of the stored vectors, and no omitted match has a
      higher similarity, or a smaller distance, than a hit. */
  ghost predicate BestShown(l: seq<Point>, query: Query, f: Filter, hits: seq<Hit>) {
    && (forall i, p :: 0 <= i < |hits| && p in l && p.id == hits[i].id ==>
          hits[i].score == query.kernel(query.metric, query.vector, p.vector))
    && (forall i, p :: 0 <= i < |hits| && p in l && f.Matches(p.payload) && Omitted(hits, p.id) ==>
          var other := query.kernel(query.metric, query.vector, p.vector);
          && (query.metric == Cosine || query.metric == DotProduct ==> hits[i].score >= other)
          && (query.metric == Euclidean ==> hits[i].score <= other))
  }

  /** What a query answers about the live points `l`. */
  ghost predicate Answers(
    l: seq<Point>, query: Query, f: Filter, limit: nat, covered: bool, exact: bool, withPayload: bool,
    withVector: bool, hits: seq<Hit>)
  {
    && AllShow(l, f, withPayload, withVector, hits) && InOrder(query.metric, hits) && |hits| <= limit
    && (covered ==> |hits| == Min(limit, |Chosen(l, f)|))
    && (covered && exact ==> BestShown(l, query, f, hits))
  }

  lemma QueryRefused(
    config: Config, sqrt: real -> real, vector: seq<real>, limit: nat, ef: nat, filter: Option<Filter>)
    requires SqrtLaw(sqrt)
    ensures var error := QueryError(config, sqrt, vector, limit, ef, filter);
      && (error.Some? <==> Refusable(config, vector, limit, ef, filter))
      && (error.Some? ==> error.value == RefusalOf(config, vector, limit, filter))
  {
    NormZero(sqrt, vector);
  }

  lemma QueryAligned(config: Config, sqrt: real -> real, vector: seq<real>, kernel: Kernel)
    requires SqrtLaw(sqrt) && (config.metric == Cosine ==> Norm(sqrt, vector) != 0.0)
    ensures Aligned(config.metric, vector, QueryOf(config, sqrt, vector, kernel).vector)
  {
    if config.metric == Cosine {
      NormalizedIsUnit(sqrt, vector);
      DivideIsMultiple(sqrt, vector);
    }
  }

  lemma LivePoint(d: Data, dim: nat, slot: nat)
    requires Valid(d, dim) && slot < |d.ids| && Live(d, slot)
    ensures Shape(d, dim) && PointAt(d, dim, slot) in Points(d, dim)
    ensures forall p :: p in Points(d, dim) && p.id == d.ids[slot] ==> p == PointAt(d, dim, slot)
  {
    PointsBelowMembers(d, dim, |d.ids|);
    hide Valid, Shape, PointsBelow;
    assert PointAt(d, dim, slot) in Points(d, dim);
  }

  /** Every live point has its slot. */
  lemma SlotOfPoint(d: Data, dim: nat, p: Point) returns (slot: nat)
    requires Valid(d, dim) && p in Points(d, dim)
    ensures slot < |d.ids| && Live(d, slot) && Shape(d, dim) && PointAt(d, dim, slot) == p
  {
    PointsBelowMembers(d, dim, |d.ids|);
    slot :| 0 <= slot < |d.ids| && Live(d, slot) && PointAt(d, dim, slot) == p;
  }

  lemma HitShows(d: Data, dim: nat, f: Filter, h: Scored, withPayload: bool, withVector: bool)
    requires Valid(d, dim) && h.0 < |d.ids| == |d.payloads| && Matching(d, f, h.0)
    ensures Shape(d, dim) && PointAt(d, dim, h.0) in Points(d, dim)
    ensures Shows(f, withPayload, withVector, HitAt(d, dim, h, withPayload, withVector), PointAt(d, dim, h.0))
  {
    LivePoint(d, dim, h.0);
  }

  lemma ProjectionShows(
    d: Data, dim: nat, f: Filter, top: seq<Scored>, withPayload: bool, withVector: bool, hits: seq<Hit>)
    requires Valid(d, dim) && DistinctSlots(top) && |d.payloads| == |d.ids|
    requires Projects(d, dim, top, withPayload, withVector, hits) && forall h :: h in top ==> Matching(d, f, h.0)
    ensures AllShow(Points(d, dim), f, withPayload, withVector, hits)
  {
    forall i | 0 <= i < |hits| ensures ShownIn(Points(d, dim), f, withPayload, withVector, hits[i]) {
      assert top[i] in top;
      HitShows(d, dim, f, top[i], withPayload, withVector);
    }
    forall i, j | 0 <= i < j < |hits| ensures hits[i].id != hits[j].id {
      assert top[i] in top && top[j] in top;
      assert Live(d, top[i].0) && Live(d, top[j].0);
    }
  }

  lemma ProjectionOrder(
    d: Data, dim: nat, metric: Metric, top: seq<Scored>, withPayload: bool, withVector: bool, hits: seq<Hit>)
    requires Shape(d, dim) && Projects(d, dim, top, withPayload, withVector, hits) && SortedBy(ByScore(metric), top)
    ensures InOrder(metric, hits)
  {
    assert forall i :: 0 <= i < |hits| ==> hits[i].score == top[i].1;
    forall i, j | 0 <= i < j < |hits| ensures NoWorse(metric, hits[i].score, hits[j].score) {
      assert ByScore(metric)(top[i], top[j]);
    }
  }

  lemma ScanOf(d: Data, query: Query, f: Filter, p: Point) returns (slot: nat)
    requires Valid(d, query.dim) && p in Points(d, query.dim) && f.Matches(p.payload)
    ensures slot < |d.ids| && d.ids[slot] == p.id && Shape(d, query.dim)
    ensures (slot, query.kernel(query.metric, query.vector, p.vector)) in Scan(d, query, f)
  {
    slot := SlotOfPoint(d, query.dim, p);
    ScanMembers(d, query, f, |d.ids|);
  }

  lemma ProjectionIsBest(
    d: Data, query: Query, f: Filter, limit: nat, top: seq<Scored>, withPayload: bool, withVector: bool,
    hits: seq<Hit>)
    requires Valid(d, query.dim) && TopOf(query.metric, top, Scan(d, query, f), limit)
    requires Projects(d, query.dim, top, withPayload, withVector, hits)
    ensures BestShown(Points(d, query.dim), query, f, hits)
  {
    var l, all := Points(d, query.dim), Scan(d, query, f);
    ScanMembers(d, query, f, |d.ids|);
    forall i, p | 0 <= i < |hits| && p in l && p.id == hits[i].id
      ensures hits[i].score == query.kernel(query.metric, query.vector, p.vector)
    {
      assert top[i] in top && top[i] in all;
      LivePoint(d, query.dim, top[i].0);
    }
    forall i, p | 0 <= i < |hits| && p in l && f.Matches(p.payload) && Omitted(hits, p.id)
      ensures NoWorse(query.metric, hits[i].score, query.kernel(query.metric, query.vector, p.vector))
    {
      var slot := ScanOf(d, query, f, p);
      var o := (slot, query.kernel(query.metric, query.vector, p.vector));
      assert top[i] in top;
      forall j | 0 <= j < |top| ensures top[j] != o {
        assert hits[j].id != p.id;
      }
    }
  }

  lemma DeliveredAnswers(
    d: Data, query: Query, f: Filter, limit: nat, covered: bool, exact: bool, top: seq<Scored>, withPayload: bool,
    withVector: bool, hits: seq<Hit>)
    requires Valid(d, query.dim) && Delivers(d, query, f, limit, covered, exact, top)
    requires Projects(d, query.dim, top, withPayload, withVector, hits)
    ensures Answers(Points(d, query.dim), query, f, limit, covered, exact, withPayload, withVector, hits)
  {
    assert Shape(d, query.dim);
    ScanCounts(d, query, f, |d.ids|);
    assert |d.payloads| == |d.ids| && |hits| == |top|;
    if covered && exact {
      assert TopOf(query.metric, top, Scan(d, query, f), limit);
      ProjectionIsBest(d, query, f, limit, top, withPayload, withVector, hits);
    }
    ProjectionShows(d, query.dim, f, top, withPayload, withVector, hits);
    ProjectionOrder(d, query.dim, query.metric, top, withPayload, withVector, hits);
    hide Valid, Shape, Projects, TopOf, AllShow, InOrder, BestShown, Scan, Chosen, PointsBelow;
  }

  // ----- answering ----------------------------------------------------------

  method Project(
    c: CollectionData, dim: nat, top: seq<Scored>, withPayload: bool, withVector: bool) returns (hits: seq<Hit>)
    requires Shape(c.Model(), dim) && forall i :: 0 <= i < |top| ==> top[i].0 < |c.ids|
    ensures Projects(c.Model(), dim, top, withPayload, withVector, hits)
  {
    hits := [];
    for i := 0 to |top|
      invariant |hits| == i
      invariant forall j :: 0 <= j < i ==> hits[j] == HitAt(c.Model(), dim, top[j], withPayload, withVector)
    {
      var vector: Option<seq<real>> := None;
      if withVector {
        var v := c.VectorAt(top[i].0, dim);
        vector := Some(v);
      }
      hits := hits + [Hit(c.ids[top[i].0], top[i].1, if withPayload then c.payloads[top[i].0] else None, vector)];
    }
  }

  /** The scored slots of a search, before they are ranked. */
  method Gather(
    c: CollectionData, query: Query, filter: Option<Filter>, limit: nat, ef: nat, oracle: Oracle)
    returns (found: seq<Scored>)
    requires Valid(c.Model(), query.dim) && Sound(oracle) && limit > 0 && 1 <= ef <= EF_MAX
    ensures DistinctSlots(found) && forall h :: h in found ==> Matching(c.Model(), FilterOf(filter), h.0)
    ensures Covered(c.Model(), FilterOf(filter)) ==>
      && Fills(c.Model(), FilterOf(filter), found, |Scan(c.Model(), query, FilterOf(filter))|, limit)
      && (Exact(oracle, query) || c.graph.None? ==>
        BestOf(query.metric, found, Scan(c.Model(), query, FilterOf(filter)), limit))
  {
    ScanFills(c.Model(), query, FilterOf(filter), limit);
    if filter.Some? && !filter.value.IsEmpty() {
      found := FilteredPlanner(c, query, filter.value, limit, ef, oracle);
    } else {
      assert FilterOf(filter) == NO_FILTER;
      found := PlainSearch(c, query, limit, ef, oracle);
    }
  }

  /** Hits for a query that was not refused. */
  method Answer(
    c: CollectionData, query: Query, filter: Option<Filter>, limit: nat, ef: nat, oracle: Oracle, withPayload: bool,
    withVector: bool)
    returns (hits: seq<Hit>)
    requires Valid(c.Model(), query.dim) && Sound(oracle) && limit > 0 && 1 <= ef <= EF_MAX
    ensures var covered, exact := AllConform(c.Model().indexes, c.payloads), Exact(oracle, query) || c.graph.None?;
      && Answers(Points(c.Model(), query.dim), query, FilterOf(filter), limit, covered, exact, withPayload, withVector,
                 hits)
      && exists top ::
        && Projects(c.Model(), query.dim, top, withPayload, withVector, hits)
        && Delivers(c.Model(), query, FilterOf(filter), limit, covered, exact, top)
  {
    ghost var covered, exact := AllConform(c.Model().indexes, c.payloads), Exact(oracle, query) || c.graph.None?;
    var found: seq<Scored> := [];
    if |c.idToSlot| == 0 {
      NothingLive(c.Model(), query, FilterOf(filter));
    } else {
      if covered {
        ConformingCovers(c.Model(), FilterOf(filter), query.dim);
      }
      found := Gather(c, query, filter, limit, ef, oracle);
    }
    RankedDelivers(c.Model(), query, FilterOf(filter), limit, covered, exact, found);
    var top := Ranked(query.metric, found, limit);
    RankedSlots(c.Model(), query.metric, FilterOf(filter), found, limit);
    hits := Project(c, query.dim, top, withPayload, withVector);
    DeliveredAnswers(c.Model(), query, FilterOf(filter), limit, covered, exact, top, withPayload, withVector, hits);
  }

  /** A search answers distinct live matches in ranking order. When the stored
      values conform to the declared indexes it answers `limit` of them or all
      there are, and from an exact graph, or none, it shows the scores of ranking
      every match. */
  method ExecuteQuery(
    c: CollectionData, config: Config, sqrt: real -> real, kernel: Kernel, oracle: Oracle, vector: seq<real>,
    limit: nat, ef: Option<nat>, withPayload: bool, withVector: bool, filter: Option<Filter>)
    returns (r: Result<seq<Hit>, Error>)
    requires Valid(c.Model(), config.dimension) && Sound(oracle)
    ensures r.Failure? <==> QueryError(config, sqrt, vector, limit, EfOf(config, ef), filter).Some?
    ensures r.Failure? ==> r.error == QueryError(config, sqrt, vector, limit, EfOf(config, ef), filter).value
    ensures r.Success? ==> exists top ::
      && Projects(c.Model(), config.dimension, top, withPayload, withVector, r.value)
      && Delivers(c.Model(), QueryOf(config, sqrt, vector, kernel), FilterOf(filter), limit,
                  AllConform(c.Model().indexes, c.payloads),
                  Exact(oracle, QueryOf(config, sqrt, vector, kernel)) || c.graph.None?, top)
    ensures SqrtLaw(sqrt) ==>
      && (r.Failure? <==> Refusable(config, vector, limit, EfOf(config, ef), filter))
      && (r.Failure? ==> r.error == RefusalOf(config, vector, limit, filter))
    ensures SqrtLaw(sqrt) && r.Success? ==> exists q ::
      && Aligned(config.metric, vector, q)
      && var query := Query(q, config.metric, config.dimension, kernel);
        Answers(Points(c.Model(), config.dimension), query, FilterOf(filter), limit,
                AllConform(c.Model().indexes, c.payloads), Exact(oracle, query) || c.graph.None?,
                withPayload, withVector, r.value)
  {
    if SqrtLaw(sqrt) {
      QueryRefused(config, sqrt, vector, limit, EfOf(config, ef), filter);
    }
    hide SqrtLaw, Refusable, RefusalOf, Aligned, Answers, Delivers, Projects;
    var error := QueryError(config, sqrt, vector, limit, EfOf(config, ef), filter);
    if error.Some? {
      return Failure(error.value);
    }
    var query := QueryOf(config, sqrt, vector, kernel);
    if SqrtLaw(sqrt) {
      QueryAligned(config, sqrt, vector, kernel);
    }
    var hits := Answer(c, query, filter, limit, EfOf(config, ef), oracle, withPayload, withVector);
    return Success(hits);
  }

  function EfOf(config: Config, ef: Option<nat>): nat {
    if ef.Some? then ef.value else config.efSearch
  }

  lemma NothingLive(d: Data, query: Query, f: Filter)
    requires Valid(d, query.dim) && |d.idToSlot| == 0
    ensures Scan(d, query, f) == []
  {
    ScanMembers(d, query, f, |d.ids|);
    MatchesBounded(d, query, NO_FILTER, Scan(d, query, f));
    LiveIsScan(d, query);
  }

  lemma RankedSlots(d: Data, metric: Metric, f: Filter, found: seq<Scored>, limit: nat)
    requires |d.payloads| == |d.ids| && DistinctSlots(found) && forall h :: h in found ==> Matching(d, f, h.0)
    ensures forall i :: 0 <= i < |Ranked(metric, found, limit)| ==> Ranked(metric, found, limit)[i].0 < |d.ids|
  {
    SortFacts(metric, found);
    var top := Ranked(metric, found, limit);
    forall i | 0 <= i < |top| ensures top[i].0 < |d.ids| {
      assert top[i] in Sort(ByScore(metric), found);
    }
  }
}
