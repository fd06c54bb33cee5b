/** Reciprocal rank fusion (`execute_hybrid` in crates/veclite/src/collection.rs):
    the dense and the sparse lane of a hybrid query merged by rank. */
module Fusion {
  import opened Core
  import opened Linear
  import opened Sorting
  import opened Words

  /** Position in a lane, counted from one; the last one should an id repeat. */
  function RankIn(lane: seq<string>, id: string): (r: Option<nat>)
    ensures r.Some? <==> id in lane
    ensures r.Some? ==> 1 <= r.value <= |lane| && lane[r.value - 1] == id
  {
    if lane == [] then None
    else if lane[|lane| - 1] == id then Some(|lane|)
    else RankIn(lane[..|lane| - 1], id)
  }

  /** Before another rank; a missing rank comes last. */
  predicate Before(a: Option<nat>, b: Option<nat>) {
    a.Some? && (b.None? || a.value < b.value)
  }

  function Shifted(k: real, rank: nat): real {
    k + rank as real
  }

  /** A constant that no rank takes to zero. */
  ghost predicate Divisor(k: real) {
    forall rank: nat :: rank > 0 ==> Shifted(k, rank) != 0.0
  }

  function Term(weight: real, k: real, rank: Option<nat>): real
    requires Divisor(k)
  {
    if rank.None? || rank.value == 0 then 0.0 else weight / Shifted(k, rank.value)
  }

  datatype Params = Params(dense: seq<string>, sparse: seq<string>, alpha: real, k: real)

  ghost predicate Weighted(p: Params) {
    0.0 <= p.alpha <= 1.0 && p.k >= 0.0
  }

  datatype Fused = Fused(id: string, score: real, rank: Option<nat>)

  function FusedOf(p: Params, id: string): Fused
    requires Divisor(p.k)
  {
    var dense, sparse := RankIn(p.dense, id), RankIn(p.sparse, id);
    Fused(id, Term(p.alpha, p.k, dense) + Term(1.0 - p.alpha, p.k, sparse), dense)
  }

  /** Score descending, then dense rank, then id. */
  predicate FusedLeq(a: Fused, b: Fused) {
    || a.score > b.score
    || (a.score == b.score && (Before(a.rank, b.rank) || (a.rank == b.rank && StrLeq(a.id, b.id))))
  }

  lemma FusedOrder()
    ensures TotalPreorder(FusedLeq)
    ensures forall a, b :: FusedLeq(a, b) && FusedLeq(b, a) ==> a == b
  {
    forall a, b ensures FusedLeq(a, b) || FusedLeq(b, a) ensures FusedLeq(a, b) && FusedLeq(b, a) ==> a == b {
      StrTotal(a.id, b.id);
    }
    forall a, b, c | FusedLeq(a, b) && FusedLeq(b, c) ensures FusedLeq(a, c) {
      if StrLeq(a.id, b.id) && StrLeq(b.id, c.id) {
        StrTransitive(a.id, b.id, c.id);
      }
    }
  }

  // ----- what a fused score is ----------------------------------------------

  /** The last place of an id in a lane, counted from one. */
  ghost predicate PlaceIn(lane: seq<string>, id: string, place: nat) {
    1 <= place <= |lane| && lane[place - 1] == id && forall m :: place <= m < |lane| ==> lane[m] != id
  }

  /** A lane's share of a score: its weight over the constant plus the place. */
  ghost predicate Shares(weight: real, k: real, lane: seq<string>, id: string, share: real) {
    if id !in lane then share == 0.0
    else exists place :: PlaceIn(lane, id, place) && k + place as real != 0.0 && share == weight / (k + place as real)
  }

  lemma {:induction false} RankIsPlace(lane: seq<string>, id: string)
    requires id in lane
    ensures RankIn(lane, id).Some? && PlaceIn(lane, id, RankIn(lane, id).value)
  {
    if lane[|lane| - 1] != id {
      assert lane == lane[..|lane| - 1] + [lane[|lane| - 1]];
      RankIsPlace(lane[..|lane| - 1], id);
    }
  }

  lemma TermIsShare(weight: real, k: real, lane: seq<string>, id: string)
    requires Divisor(k)
    ensures Shares(weight, k, lane, id, Term(weight, k, RankIn(lane, id)))
  {
    if id in lane {
      RankIsPlace(lane, id);
      var place := RankIn(lane, id).value;
      assert Term(weight, k, RankIn(lane, id)) == weight / (k + place as real);
    }
  }

  /** A fused score is the dense share plus the sparse one, weighed with `alpha` and the
      rest of one; the dense place breaks ties. */
  lemma ScoreIsShares(p: Params, id: string) returns (dense: real, sparse: real)
    requires Divisor(p.k)
    ensures Shares(p.alpha, p.k, p.dense, id, dense) && Shares(1.0 - p.alpha, p.k, p.sparse, id, sparse)
    ensures FusedOf(p, id).score == dense + sparse
    ensures FusedOf(p, id).id == id
    ensures if id in p.dense then FusedOf(p, id).rank.Some? && PlaceIn(p.dense, id, FusedOf(p, id).rank.value)
      else FusedOf(p, id).rank == None
  {
    dense, sparse := Term(p.alpha, p.k, RankIn(p.dense, id)), Term(1.0 - p.alpha, p.k, RankIn(p.sparse, id));
    TermIsShare(p.alpha, p.k, p.dense, id);
    TermIsShare(1.0 - p.alpha, p.k, p.sparse, id);
    if id in p.dense {
      RankIsPlace(p.dense, id);
    }
    hide Shares, Term;
  }

  // ----- fusing -------------------------------------------------------------

  /** The fused list: distinct ids of the lanes with their scores, strictly in
      order, `limit` of them or all, and nothing left out comes earlier. */
  ghost predicate IsFusion(p: Params, limit: nat, top: seq<Fused>)
    requires Divisor(p.k)
  {
    && StrictlySorted(FusedLeq, top)
    && (forall i :: 0 <= i < |top| ==>
      top[i] == FusedOf(p, top[i].id) && (top[i].id in p.dense || top[i].id in p.sparse))
    && (forall i, j :: 0 <= i < j < |top| ==> top[i].id != top[j].id)
    && |top| == Min(limit, |Elems(p.dense) + Elems(p.sparse)|)
    && (forall i, id :: 0 <= i < |top| && (id in p.dense || id in p.sparse) && FusedOf(p, id) !in top ==>
          FusedLeq(top[i], FusedOf(p, id)))
  }

  method Fuse(p: Params, limit: nat) returns (top: seq<Fused>)
    requires Divisor(p.k)
    ensures IsFusion(p, limit, top)
  {
    var ids := SortedOnce(p.dense + p.sparse);
    var all: seq<Fused> := [];
    for i := 0 to |ids|
      invariant |all| == i && forall j :: 0 <= j < i ==> all[j] == FusedOf(p, ids[j])
    {
      all := all + [FusedOf(p, ids[i])];
    }
    top := Take(Sort(FusedLeq, all), limit);
    FusedTop(p, limit, ids, all);
  }

  lemma UnionSize(p: Params, ids: seq<string>)
    requires Distinct(ids) && forall id :: id in ids <==> id in p.dense + p.sparse
    ensures |Elems(p.dense) + Elems(p.sparse)| == |ids|
  {
    DistinctElems(ids);
    assert Elems(ids) == Elems(p.dense) + Elems(p.sparse);
  }

  lemma {:induction false} DistinctElems(ids: seq<string>)
    requires Distinct(ids)
    ensures |Elems(ids)| == |ids|
  {
    if ids != [] {
      DistinctElems(ids[..|ids| - 1]);
      assert Elems(ids) == Elems(ids[..|ids| - 1]) + {ids[|ids| - 1]};
    } else {
      assert Elems(ids) == {};
    }
  }

  lemma FusedTop(p: Params, limit: nat, ids: seq<string>, all: seq<Fused>)
    requires Divisor(p.k) && Distinct(ids) && forall id :: id in ids <==> id in p.dense + p.sparse
    requires |all| == |ids| && forall j :: 0 <= j < |ids| ==> all[j] == FusedOf(p, ids[j])
    ensures IsFusion(p, limit, Take(Sort(FusedLeq, all), limit))
  {
    FusedOrder();
    AllDistinct(p, ids, all);
    SortAndCut(FusedLeq, all, limit);
    UnionSize(p, ids);
    hide Sort, Take, FusedOf, FusedLeq, TotalPreorder;
    TopIsFusion(p, limit, ids, all, Take(Sort(FusedLeq, all), limit));
  }

  lemma AllDistinct(p: Params, ids: seq<string>, all: seq<Fused>)
    requires Divisor(p.k) && Distinct(ids)
    requires |all| == |ids| && forall j :: 0 <= j < |ids| ==> all[j] == FusedOf(p, ids[j])
    ensures forall i, j :: 0 <= i < j < |all| ==> all[i] != all[j]
  {
    forall i | 0 <= i < |all| ensures all[i].id == ids[i] {
      assert all[i] == FusedOf(p, ids[i]);
    }
    hide FusedOf;
  }

  lemma TopIsFusion(p: Params, limit: nat, ids: seq<string>, all: seq<Fused>, top: seq<Fused>)
    requires Divisor(p.k) && forall id :: id in ids <==> id in p.dense + p.sparse
    requires |all| == |ids| && forall j :: 0 <= j < |ids| ==> all[j] == FusedOf(p, ids[j])
    requires StrictlySorted(FusedLeq, top) && |top| == Min(limit, |Elems(p.dense) + Elems(p.sparse)|)
    requires forall x :: x in top ==> x in all
    requires forall h, o :: h in top && o in all && o !in top ==> FusedLeq(h, o)
    ensures IsFusion(p, limit, top)
  {
    hide FusedOf, FusedLeq;
    forall i | 0 <= i < |top|
      ensures top[i] == FusedOf(p, top[i].id) && (top[i].id in p.dense || top[i].id in p.sparse)
    {
      assert top[i] in all;
      FromLanes(p, ids, all, top[i]);
    }
    forall i, j | 0 <= i < j < |top| ensures top[i].id != top[j].id {
      assert FusedLeq(top[i], top[j]) && !FusedLeq(top[j], top[i]);
    }
    forall i, id | 0 <= i < |top| && (id in p.dense || id in p.sparse) && FusedOf(p, id) !in top
      ensures FusedLeq(top[i], FusedOf(p, id))
    {
      LaneIsListed(p, ids, all, id);
      assert top[i] in top;
    }
  }

  lemma FromLanes(p: Params, ids: seq<string>, all: seq<Fused>, x: Fused)
    requires Divisor(p.k) && forall id :: id in ids <==> id in p.dense + p.sparse
    requires |all| == |ids| && forall j :: 0 <= j < |ids| ==> all[j] == FusedOf(p, ids[j])
    requires x in all
    ensures x == FusedOf(p, x.id) && (x.id in p.dense || x.id in p.sparse)
  {
    var j :| 0 <= j < |all| && all[j] == x;
    assert ids[j] in ids;
  }

  lemma LaneIsListed(p: Params, ids: seq<string>, all: seq<Fused>, id: string)
    requires Divisor(p.k) && forall id :: id in ids <==> id in p.dense + p.sparse
    requires |all| == |ids| && forall j :: 0 <= j < |ids| ==> all[j] == FusedOf(p, ids[j])
    requires id in p.dense || id in p.sparse
    ensures FusedOf(p, id) in all
  {
    assert id in ids;
    var n :| 0 <= n < |ids| && ids[n] == id;
    assert all[n] == FusedOf(p, id);
  }

  // ----- better lanes never lose --------------------------------------------

  /** A rank that is no later contributes no less. */
  lemma TermFalls(weight: real, k: real, a: Option<nat>, b: Option<nat>)
    requires weight >= 0.0 && k >= 0.0 && (a.Some? ==> a.value > 0) && (b.Some? ==> b.value > 0)
    requires a == b || Before(a, b)
    ensures Term(weight, k, a) >= Term(weight, k, b)
    ensures weight > 0.0 && Before(a, b) ==> Term(weight, k, a) > Term(weight, k, b)
  {
    if a.Some? {
      var x := k + a.value as real;
      if b.Some? {
        FractionFalls(weight, x, k + b.value as real);
      } else {
        FractionFalls(weight, x, x + 1.0);
      }
    }
  }

  /** Better in the dense lane and no worse in the sparse lane comes first. */
  lemma DenseLeads(p: Params, a: string, b: string)
    requires Weighted(p) && Before(RankIn(p.dense, a), RankIn(p.dense, b))
    requires RankIn(p.sparse, a) == RankIn(p.sparse, b) || Before(RankIn(p.sparse, a), RankIn(p.sparse, b))
    ensures FusedLeq(FusedOf(p, a), FusedOf(p, b)) && !FusedLeq(FusedOf(p, b), FusedOf(p, a))
  {
    TermFalls(p.alpha, p.k, RankIn(p.dense, a), RankIn(p.dense, b));
    TermFalls(1.0 - p.alpha, p.k, RankIn(p.sparse, a), RankIn(p.sparse, b));
  }

  /** Among ids the dense lane misses the sparse lane decides, if and only if it
      has weight; without weight the ids do. */
  lemma SparseLeadsIff(p: Params, a: string, b: string)
    requires Weighted(p) && a !in p.dense && b !in p.dense && Before(RankIn(p.sparse, a), RankIn(p.sparse, b))
    ensures !FusedLeq(FusedOf(p, b), FusedOf(p, a)) <==> p.alpha < 1.0 || !StrLeq(b, a)
  {
    TermFalls(1.0 - p.alpha, p.k, RankIn(p.sparse, a), RankIn(p.sparse, b));
    if p.alpha == 1.0 {
      NoWeight(p.k, RankIn(p.sparse, a));
      NoWeight(p.k, RankIn(p.sparse, b));
    }
  }

  lemma NoWeight(k: real, rank: Option<nat>)
    requires k >= 0.0
    ensures Term(0.0, k, rank) == 0.0
  {
    if rank.Some? && rank.value != 0 {
      var x := k + rank.value as real;
      assert 0.0 / x * x == 0.0;
    }
  }

  /** A fused list in plain words: higher scores first; at the same score what the dense
      lane has comes before what it has not, and earlier places before later ones; at the
      same place, or with none, the ids in order. */
  lemma FusedInOrder(p: Params, limit: nat, top: seq<Fused>, i: nat, j: nat)
    requires Divisor(p.k) && IsFusion(p, limit, top) && i < j < |top|
    ensures top[i].score >= top[j].score
    ensures top[i].score == top[j].score ==>
      || (top[i].rank.Some? && top[j].rank.None?)
      || (top[i].rank.Some? && top[j].rank.Some? && top[i].rank.value < top[j].rank.value)
      || (top[i].rank == top[j].rank && StrLeq(top[i].id, top[j].id) && top[i].id != top[j].id)
  {
    assert FusedLeq(top[i], top[j]) && !FusedLeq(top[j], top[i]);
  }

  /** In a fused list an id that leads another is never behind it. */
  lemma LeaderFirst(p: Params, limit: nat, top: seq<Fused>, i: nat, j: nat)
    requires Weighted(p) && IsFusion(p, limit, top) && i < |top| && j < |top|
    requires Before(RankIn(p.dense, top[i].id), RankIn(p.dense, top[j].id))
    requires RankIn(p.sparse, top[i].id) == RankIn(p.sparse, top[j].id)
      || Before(RankIn(p.sparse, top[i].id), RankIn(p.sparse, top[j].id))
    ensures i < j
  {
    DenseLeads(p, top[i].id, top[j].id);
  }
}
