/** The slot store of one collection (`CollectionData` in
    crates/veclite/src/collection.rs) as a value: its fields, the writes on
    them, the representation invariant, and the ordered list of live points
    that everything observable depends on. */
module Slots {
  import opened Core
  import opened PayloadIndex

  /** The inserted nodes of the nearest-neighbour graph; nothing else of it is modelled. */
  datatype Graph = Graph(nodes: map<nat, seq<real>>)

  /** Where in the file a collection was last committed, and its counts there. */
  datatype Committed = Committed(refs: nat, vectorCount: nat, tombstoneCount: nat)

  /** The read-only tier: slots below `|rows|` read their vector from the file map. */
  datatype Base = Base(rows: seq<seq<real>>, committed: Committed, indexed: bool)

  datatype Data = Data(
    vectors: seq<real>,
    ids: seq<string>,
    idToSlot: map<string, nat>,
    tombstones: set<nat>,
    payloads: seq<Option<Value>>,
    sparses: seq<Option<SparseVector>>,
    graph: Option<Graph>,
    indexes: Indexes,
    base: Option<Base>,
    committed: Option<Committed>,
    dirty: bool)

  function EmptyData(metric: Metric, indexes: Indexes): Data {
    Data([], [], map[], {}, [], [], EmptyGraph(metric), indexes, None, None, false)
  }

  /** Dot-product collections have no graph. */
  function EmptyGraph(metric: Metric): Option<Graph> {
    if metric == DotProduct then None else Some(Graph(map[]))
  }

  // ----- representation -----------------------------------------------------

  function BaseCount(d: Data): nat {
    if d.base.None? then 0 else |d.base.value.rows|
  }

  ghost predicate Shape(d: Data, dim: nat) {
    && |d.payloads| == |d.sparses| == |d.ids|
    && BaseCount(d) <= |d.ids|
    && |d.vectors| == (|d.ids| - BaseCount(d)) * dim
    && (d.base.Some? ==> forall i :: 0 <= i < |d.base.value.rows| ==> |d.base.value.rows[i]| == dim)
  }

  lemma MulMonotone(a: nat, b: nat, dim: nat)
    requires a <= b
    ensures a * dim <= b * dim
  {
  }

  lemma MulStep(a: nat, dim: nat)
    ensures (a + 1) * dim == a * dim + dim
  {
  }

  /** The stored vector of a slot, from whichever tier holds it. */
  function Row(d: Data, dim: nat, slot: nat): (v: seq<real>)
    requires Shape(d, dim) && slot < |d.ids|
    ensures |v| == dim
  {
    if slot < BaseCount(d) then d.base.value.rows[slot]
    else
      var o := slot - BaseCount(d);
      MulMonotone(o + 1, |d.ids| - BaseCount(d), dim);
      MulStep(o, dim);
      d.vectors[o * dim..(o + 1) * dim]
  }

  predicate Live(d: Data, slot: nat) {
    slot < |d.ids| && d.ids[slot] in d.idToSlot && d.idToSlot[d.ids[slot]] == slot
  }

  ghost predicate GraphHolds(d: Data, dim: nat)
    requires Shape(d, dim)
  {
    d.graph.Some? ==>
      && (forall s :: s in d.graph.value.nodes ==> s < |d.ids| && d.graph.value.nodes[s] == Row(d, dim, s))
      && (forall s :: Live(d, s) ==> s in d.graph.value.nodes)
  }

  /** Ids and live slots agree both ways, dead slots are the tombstones and hold
      nothing, indexes and graph describe the stored points. */
  ghost predicate Valid(d: Data, dim: nat) {
    && Shape(d, dim)
    && (forall id :: id in d.idToSlot ==> d.idToSlot[id] < |d.ids| && d.ids[d.idToSlot[id]] == id)
    && (forall s :: s in d.tombstones <==> 0 <= s < |d.ids| && !Live(d, s))
    && (forall s :: 0 <= s < |d.ids| && !Live(d, s) ==> d.payloads[s].None? && d.sparses[s].None?)
    && Coherent(d.indexes, d.payloads)
    && GraphHolds(d, dim)
  }

  lemma EmptyValid(metric: Metric, indexes: Indexes, dim: nat)
    requires forall name :: name in indexes ==> indexes[name].postings == map[]
    ensures Valid(EmptyData(metric, indexes), dim)
    ensures Points(EmptyData(metric, indexes), dim) == []
  {
    EmptyCoherent(indexes);
  }

  // ----- writes -------------------------------------------------------------

  /** Retire the slot behind `id`, if any. */
  function Retired(d: Data, id: string): Data
    requires id in d.idToSlot ==> d.idToSlot[id] < |d.payloads| == |d.sparses|
  {
    if id !in d.idToSlot then d
    else
      var slot := d.idToSlot[id];
      d.(idToSlot := d.idToSlot - {id},
         tombstones := d.tombstones + {slot},
         indexes := Removed(d.indexes, slot, d.payloads[slot]),
         payloads := d.payloads[slot := None],
         sparses := d.sparses[slot := None])
  }

  function Appended(d: Data, p: Point): Data {
    var slot := |d.ids|;
    d.(vectors := d.vectors + p.vector,
       ids := d.ids + [p.id],
       payloads := d.payloads + [p.payload],
       sparses := d.sparses + [p.sparse],
       idToSlot := d.idToSlot[p.id := slot],
       indexes := Inserted(d.indexes, slot, p.payload),
       dirty := true,
       graph := if d.graph.None? then None else Some(Graph(d.graph.value.nodes[slot := p.vector])))
  }

  function Upserted(d: Data, p: Point): Data
    requires p.id in d.idToSlot ==> d.idToSlot[p.id] < |d.payloads| == |d.sparses|
  {
    Appended(Retired(d, p.id), p)
  }

  function Deleted(d: Data, id: string): Data
    requires id in d.idToSlot ==> d.idToSlot[id] < |d.payloads| == |d.sparses|
  {
    if id in d.idToSlot then Retired(d, id).(dirty := true) else d
  }

  /** What writes leave alone, slot by slot. */
  ghost predicate Extends(d: Data, e: Data, dim: nat)
    requires Shape(d, dim) && Shape(e, dim)
  {
    && d.ids <= e.ids
    && d.base == e.base
    && (forall s :: 0 <= s < |d.ids| ==> Row(e, dim, s) == Row(d, dim, s))
  }

  lemma RetiredFacts(d: Data, id: string, dim: nat)
    requires Valid(d, dim)
    ensures var e := Retired(d, id);
            && Valid(e, dim) && Extends(d, e, dim) && e.ids == d.ids && id !in e.idToSlot
            && Kinds(e.indexes) == Kinds(d.indexes)
            && (forall s :: 0 <= s < |d.ids| ==> (Live(e, s) <==> Live(d, s) && d.ids[s] != id))
            && (forall s :: Live(e, s) ==> PointAt(e, dim, s) == PointAt(d, dim, s))
  {
    if id in d.idToSlot {
      var slot, e := d.idToSlot[id], Retired(d, id);
      RemoveKeepsCoherence(d.indexes, d.payloads, slot);
      assert Shape(e, dim);
      assert forall s :: 0 <= s < |d.ids| ==> Row(e, dim, s) == Row(d, dim, s);
      assert forall s :: 0 <= s < |d.ids| ==> (Live(e, s) <==> Live(d, s) && s != slot);
      assert forall s :: 0 <= s < |d.ids| && Live(d, s) ==> (d.ids[s] == id <==> s == slot);
      assert Kinds(e.indexes) == Kinds(d.indexes);
    }
  }

  lemma SliceOfPrefix(v: seq<real>, w: seq<real>, lo: nat, hi: nat)
    requires lo <= hi <= |v|
    ensures (v + w)[lo..hi] == v[lo..hi]
  {
  }

  lemma AppendedRow(d: Data, p: Point, dim: nat, s: nat)
    requires Shape(d, dim) && Shape(Appended(d, p), dim) && s < |d.ids|
    ensures Row(Appended(d, p), dim, s) == Row(d, dim, s)
  {
    if s >= BaseCount(d) {
      var o := s - BaseCount(d);
      MulMonotone(o + 1, |d.ids| - BaseCount(d), dim);
      MulStep(o, dim);
      SliceOfPrefix(d.vectors, p.vector, o * dim, (o + 1) * dim);
    }
  }

  lemma AppendedRows(d: Data, p: Point, dim: nat)
    requires Shape(d, dim) && |p.vector| == dim
    ensures Shape(Appended(d, p), dim) && Extends(d, Appended(d, p), dim)
    ensures Row(Appended(d, p), dim, |d.ids|) == p.vector
  {
    var e := Appended(d, p);
    MulStep(|d.ids| - BaseCount(d), dim);
    assert Shape(e, dim);
    forall s: nat | s < |d.ids| ensures Row(e, dim, s) == Row(d, dim, s) {
      AppendedRow(d, p, dim, s);
    }
  }

  lemma AppendedFacts(d: Data, p: Point, dim: nat)
    requires Valid(d, dim) && |p.vector| == dim && p.id !in d.idToSlot
    ensures var e := Appended(d, p);
            && Valid(e, dim) && Extends(d, e, dim)
            && |e.ids| == |d.ids| + 1
            && Live(e, |d.ids|) && PointAt(e, dim, |d.ids|) == p
            && Kinds(e.indexes) == Kinds(d.indexes)
            && (forall s :: 0 <= s < |d.ids| ==> (Live(e, s) <==> Live(d, s)))
            && (forall s :: Live(d, s) ==> PointAt(e, dim, s) == PointAt(d, dim, s))
  {
    var e := Appended(d, p);
    AppendedRows(d, p, dim);
    InsertKeepsCoherence(d.indexes, d.payloads, p.payload);
    assert forall s :: 0 <= s < |d.ids| ==> (Live(e, s) <==> Live(d, s));
    assert GraphHolds(e, dim);
  }

  lemma UpsertedFacts(d: Data, p: Point, dim: nat)
    requires Valid(d, dim) && |p.vector| == dim
    ensures var e := Upserted(d, p);
            && Valid(e, dim) && Extends(d, e, dim)
            && |e.ids| == |d.ids| + 1
            && Live(e, |d.ids|) && PointAt(e, dim, |d.ids|) == p
            && Kinds(e.indexes) == Kinds(d.indexes)
            && (forall s :: 0 <= s < |d.ids| ==> (Live(e, s) <==> Live(d, s) && d.ids[s] != p.id))
            && (forall s :: 0 <= s < |d.ids| && Live(e, s) ==> PointAt(e, dim, s) == PointAt(d, dim, s))
  {
    RetiredFacts(d, p.id, dim);
    AppendedFacts(Retired(d, p.id), p, dim);
  }

  // ----- the list of live points --------------------------------------------

  function PointAt(d: Data, dim: nat, slot: nat): Point
    requires Shape(d, dim) && slot < |d.ids|
  {
    Point(d.ids[slot], Row(d, dim, slot), d.sparses[slot], d.payloads[slot])
  }

  /** Live points below slot `n`, in slot order. */
  function PointsBelow(d: Data, dim: nat, n: nat): seq<Point>
    requires Shape(d, dim) && n <= |d.ids|
  {
    if n == 0 then []
    else PointsBelow(d, dim, n - 1) + if Live(d, n - 1) then [PointAt(d, dim, n - 1)] else []
  }

  function Points(d: Data, dim: nat): seq<Point>
    requires Shape(d, dim)
  {
    PointsBelow(d, dim, |d.ids|)
  }

  function Without(l: seq<Point>, id: string): seq<Point> {
    if l == [] then []
    else Without(l[..|l| - 1], id) + if l[|l| - 1].id == id then [] else [l[|l| - 1]]
  }

  /** Insert or replace: the newest version of a point moves to the end. */
  function Put(l: seq<Point>, p: Point): seq<Point> {
    Without(l, p.id) + [p]
  }

  function PutAll(l: seq<Point>, batch: seq<Point>): seq<Point> {
    if batch == [] then l else Put(PutAll(l, batch[..|batch| - 1]), batch[|batch| - 1])
  }

  function WithoutAll(l: seq<Point>, ids: seq<string>): seq<Point> {
    if ids == [] then l else Without(WithoutAll(l, ids[..|ids| - 1]), ids[|ids| - 1])
  }

  function UpsertedAll(d: Data, batch: seq<Point>, dim: nat): (r: Data)
    requires Valid(d, dim) && forall i :: 0 <= i < |batch| ==> |batch[i].vector| == dim
    ensures Valid(r, dim) && Kinds(r.indexes) == Kinds(d.indexes) && Extends(d, r, dim)
  {
    if batch == [] then d
    else
      var before := UpsertedAll(d, batch[..|batch| - 1], dim);
      UpsertedFacts(before, batch[|batch| - 1], dim);
      Upserted(before, batch[|batch| - 1])
  }

  function DeletedAll(d: Data, ids: seq<string>, dim: nat): (r: Data)
    requires Valid(d, dim)
    ensures Valid(r, dim) && Kinds(r.indexes) == Kinds(d.indexes) && Extends(d, r, dim)
  {
    if ids == [] then d
    else
      var before := DeletedAll(d, ids[..|ids| - 1], dim);
      RetiredFacts(before, ids[|ids| - 1], dim);
      DeletedFacts(before, ids[|ids| - 1], dim);
      Deleted(before, ids[|ids| - 1])
  }

  lemma DeletedFacts(d: Data, id: string, dim: nat)
    requires Valid(d, dim)
    ensures var e := Deleted(d, id);
            && Valid(e, dim) && Extends(d, e, dim) && e.ids == d.ids
            && Kinds(e.indexes) == Kinds(d.indexes)
            && (forall s :: 0 <= s < |d.ids| ==> (Live(e, s) <==> Live(d, s) && d.ids[s] != id))
            && (forall s :: Live(e, s) ==> PointAt(e, dim, s) == PointAt(d, dim, s))
  {
    RetiredFacts(d, id, dim);
    var r, e := Retired(d, id), Deleted(d, id);
    assert Shape(e, dim);
    assert forall s :: 0 <= s < |d.ids| ==> Row(e, dim, s) == Row(r, dim, s);
    assert forall s :: Live(e, s) <==> Live(r, s);
  }

  lemma WithoutSnoc(l: seq<Point>, p: Point, id: string)
    ensures Without(l + [p], id) == if p.id == id then Without(l, id) else Without(l, id) + [p]
  {
    assert (l + [p])[..|l|] == l;
  }

  lemma {:induction false} WithoutMatches(d: Data, e: Data, dim: nat, id: string, n: nat)
    requires Shape(d, dim) && Shape(e, dim) && n <= |d.ids| <= |e.ids|
    requires forall s :: 0 <= s < n ==> (Live(e, s) <==> Live(d, s) && d.ids[s] != id)
    requires forall s :: 0 <= s < n && Live(e, s) ==> PointAt(e, dim, s) == PointAt(d, dim, s)
    ensures PointsBelow(e, dim, n) == Without(PointsBelow(d, dim, n), id)
  {
    if n > 0 {
      WithoutMatches(d, e, dim, id, n - 1);
      if Live(d, n - 1) {
        WithoutSnoc(PointsBelow(d, dim, n - 1), PointAt(d, dim, n - 1), id);
      } else {
        assert PointsBelow(d, dim, n) == PointsBelow(d, dim, n - 1);
      }
    }
  }

  /** An upsert removes the old version of its point and appends the new one. */
  lemma UpsertRefines(d: Data, p: Point, dim: nat)
    requires Valid(d, dim) && |p.vector| == dim
    ensures Valid(Upserted(d, p), dim)
    ensures Points(Upserted(d, p), dim) == Put(Points(d, dim), p)
  {
    UpsertedFacts(d, p, dim);
    WithoutMatches(d, Upserted(d, p), dim, p.id, |d.ids|);
  }

  lemma DeleteRefines(d: Data, id: string, dim: nat)
    requires Valid(d, dim)
    ensures Valid(Deleted(d, id), dim)
    ensures Points(Deleted(d, id), dim) == Without(Points(d, dim), id)
  {
    DeletedFacts(d, id, dim);
    WithoutMatches(d, Deleted(d, id), dim, id, |d.ids|);
  }

  lemma {:induction false} UpsertAllRefines(d: Data, batch: seq<Point>, dim: nat)
    requires Valid(d, dim) && forall i :: 0 <= i < |batch| ==> |batch[i].vector| == dim
    ensures Points(UpsertedAll(d, batch, dim), dim) == PutAll(Points(d, dim), batch)
  {
    if batch != [] {
      UpsertAllRefines(d, batch[..|batch| - 1], dim);
      UpsertRefines(UpsertedAll(d, batch[..|batch| - 1], dim), batch[|batch| - 1], dim);
    }
  }

  lemma {:induction false} DeleteAllRefines(d: Data, ids: seq<string>, dim: nat)
    requires Valid(d, dim)
    ensures Points(DeletedAll(d, ids, dim), dim) == WithoutAll(Points(d, dim), ids)
  {
    if ids != [] {
      DeleteAllRefines(d, ids[..|ids| - 1], dim);
      DeleteRefines(DeletedAll(d, ids[..|ids| - 1], dim), ids[|ids| - 1], dim);
    }
  }

  // ----- the list as a map --------------------------------------------------

  ghost predicate DistinctIds(l: seq<Point>) {
    forall i, j :: 0 <= i < j < |l| ==> l[i].id != l[j].id
  }

  function AsMap(l: seq<Point>): map<string, Point> {
    if l == [] then map[] else AsMap(l[..|l| - 1])[l[|l| - 1].id := l[|l| - 1]]
  }

  lemma {:induction false} WithoutMembers(l: seq<Point>, id: string)
    ensures forall p :: p in Without(l, id) <==> p in l && p.id != id
    ensures DistinctIds(l) ==> DistinctIds(Without(l, id))
  {
    if l != [] {
      var front, last := l[..|l| - 1], l[|l| - 1];
      WithoutMembers(front, id);
      assert l == front + [last];
      if last.id != id && DistinctIds(l) {
        DistinctSnoc(Without(front, id), last);
      }
    }
  }

  lemma DistinctSnoc(l: seq<Point>, p: Point)
    requires DistinctIds(l) && forall q :: q in l ==> q.id != p.id
    ensures DistinctIds(l + [p])
  {
    forall i | 0 <= i < |l| ensures l[i].id != p.id {
      assert l[i] in l;
    }
  }

  lemma {:induction false} WithoutAsMap(l: seq<Point>, id: string)
    ensures AsMap(Without(l, id)) == AsMap(l) - {id}
  {
    if l != [] {
      var front, last := l[..|l| - 1], l[|l| - 1];
      WithoutAsMap(front, id);
      assert Without(l, id) == Without(front, id) + if last.id == id then [] else [last];
      if last.id == id {
        assert Without(l, id) == Without(front, id);
      } else {
        AsMapSnoc(Without(front, id), last);
      }
    }
  }

  lemma AsMapSnoc(l: seq<Point>, p: Point)
    ensures AsMap(l + [p]) == AsMap(l)[p.id := p]
  {
    assert (l + [p])[..|l|] == l;
  }

  lemma {:induction false} IndexOfId(l: seq<Point>, id: string) returns (i: nat)
    requires id in AsMap(l)
    ensures i < |l| && l[i].id == id
  {
    if l[|l| - 1].id == id {
      i := |l| - 1;
    } else {
      i := IndexOfId(l[..|l| - 1], id);
    }
  }

  lemma {:induction false} EntryOfId(l: seq<Point>, i: nat)
    requires DistinctIds(l) && i < |l|
    ensures l[i].id in AsMap(l) && AsMap(l)[l[i].id] == l[i]
  {
    if i < |l| - 1 {
      EntryOfId(l[..|l| - 1], i);
    }
  }

  lemma AsMapMembers(l: seq<Point>)
    requires DistinctIds(l)
    ensures forall id :: id in AsMap(l) <==> exists i :: 0 <= i < |l| && l[i].id == id
    ensures forall i :: 0 <= i < |l| ==> l[i].id in AsMap(l) && AsMap(l)[l[i].id] == l[i]
  {
    forall i | 0 <= i < |l| ensures l[i].id in AsMap(l) && AsMap(l)[l[i].id] == l[i] {
      EntryOfId(l, i);
    }
    forall id | id in AsMap(l) ensures exists i :: 0 <= i < |l| && l[i].id == id {
      var i := IndexOfId(l, id);
    }
  }

  lemma RemoveThenSet<K, V>(m: map<K, V>, k: K, v: V)
    ensures (m - {k})[k := v] == m[k := v]
  {
  }

  lemma PutDistinct(l: seq<Point>, p: Point)
    requires DistinctIds(l)
    ensures DistinctIds(Put(l, p))
  {
    WithoutMembers(l, p.id);
    DistinctSnoc(Without(l, p.id), p);
  }

  /** The last writer of an id wins; every other id keeps its point. */
  lemma PutIsMapUpdate(l: seq<Point>, p: Point)
    ensures AsMap(Put(l, p)) == AsMap(l)[p.id := p]
    ensures DistinctIds(l) ==> DistinctIds(Put(l, p))
  {
    WithoutAsMap(l, p.id);
    AsMapSnoc(Without(l, p.id), p);
    RemoveThenSet(AsMap(l), p.id, p);
    if DistinctIds(l) {
      PutDistinct(l, p);
    }
  }

  /** The last point of a list with an id. */
  function LastWith(l: seq<Point>, id: string): (r: Option<Point>)
    ensures r.None? <==> forall p :: p in l ==> p.id != id
    ensures r.Some? ==> exists i ::
      0 <= i < |l| && l[i] == r.value && l[i].id == id && forall j :: i < j < |l| ==> l[j].id != id
  {
    if l == [] then None
    else
      var front, last := l[..|l| - 1], l[|l| - 1];
      assert l == front + [last];
      if last.id == id then Some(last) else LastWith(front, id)
  }

  /** Each id of the batch has its last version, every other id what it had. */
  ghost predicate Overwritten(was: map<string, Point>, batch: seq<Point>, now: map<string, Point>) {
    forall id ::
      if LastWith(batch, id).Some? then id in now && now[id] == LastWith(batch, id).value
      else (id in now <==> id in was) && (id in now ==> now[id] == was[id])
  }

  lemma LastWithSnoc(front: seq<Point>, last: Point, id: string)
    ensures LastWith(front + [last], id) == if last.id == id then Some(last) else LastWith(front, id)
  {
    assert (front + [last])[..|front|] == front;
  }

  lemma OverwrittenSnoc(was: map<string, Point>, front: seq<Point>, mid: map<string, Point>, last: Point)
    requires Overwritten(was, front, mid)
    ensures Overwritten(was, front + [last], mid[last.id := last])
  {
    forall id ensures LastWith(front + [last], id) == if last.id == id then Some(last) else LastWith(front, id) {
      LastWithSnoc(front, last, id);
    }
    hide LastWith;
  }

  /** A batch of upserts as a map update. */
  lemma {:induction false} PutAllIsMap(l: seq<Point>, batch: seq<Point>)
    ensures Overwritten(AsMap(l), batch, AsMap(PutAll(l, batch)))
    ensures DistinctIds(l) ==> DistinctIds(PutAll(l, batch))
  {
    if batch != [] {
      var front, last := batch[..|batch| - 1], batch[|batch| - 1];
      assert batch == front + [last] && PutAll(l, batch) == Put(PutAll(l, front), last);
      hide *;
      PutAllIsMap(l, front);
      PutIsMapUpdate(PutAll(l, front), last);
      OverwrittenSnoc(AsMap(l), front, AsMap(PutAll(l, front)), last);
    }
  }

  lemma {:induction false} WithoutAllIsMap(l: seq<Point>, ids: seq<string>)
    ensures AsMap(WithoutAll(l, ids)) == AsMap(l) - Elems(ids)
  {
    if ids == [] {
      assert Elems(ids) == {};
    } else {
      var front, last := ids[..|ids| - 1], ids[|ids| - 1];
      WithoutAllIsMap(l, front);
      WithoutAsMap(WithoutAll(l, front), last);
      assert Elems(ids) == Elems(front) + {last} by {
        assert ids == front + [last];
      }
    }
  }

  lemma {:induction false} PointsBelowMembers(d: Data, dim: nat, n: nat)
    requires Valid(d, dim) && n <= |d.ids|
    ensures forall p :: p in PointsBelow(d, dim, n) <==> exists s :: 0 <= s < n && Live(d, s) && PointAt(d, dim, s) == p
    ensures DistinctIds(PointsBelow(d, dim, n))
  {
    if n > 0 {
      PointsBelowMembers(d, dim, n - 1);
      var before := PointsBelow(d, dim, n - 1);
      if Live(d, n - 1) {
        forall i | 0 <= i < |before| ensures before[i].id != d.ids[n - 1] {
          assert before[i] in before;
        }
      }
    }
  }

  /** What `get` answers is what the list holds under that id. */
  lemma GetReadsList(d: Data, dim: nat, id: string)
    requires Valid(d, dim)
    ensures AsMap(Points(d, dim)).Keys == d.idToSlot.Keys
    ensures id in d.idToSlot ==> AsMap(Points(d, dim))[id] == PointAt(d, dim, d.idToSlot[id])
  {
    var l := Points(d, dim);
    PointsBelowMembers(d, dim, |d.ids|);
    AsMapMembers(l);
    forall k | k in d.idToSlot ensures k in AsMap(l) && AsMap(l)[k] == PointAt(d, dim, d.idToSlot[k]) {
      assert Live(d, d.idToSlot[k]);
      assert PointAt(d, dim, d.idToSlot[k]) in l;
    }
    forall k | k in AsMap(l) ensures k in d.idToSlot {
      var i :| 0 <= i < |l| && l[i].id == k;
      assert l[i] in l;
    }
  }

  // ----- counting -----------------------------------------------------------

  function LiveSlots(d: Data, n: nat): (r: seq<nat>)
    ensures forall i :: 0 <= i < |r| ==> r[i] < n && Live(d, r[i])
    ensures forall i, j :: 0 <= i < j < |r| ==> r[i] < r[j]
    ensures forall s :: s in r <==> 0 <= s < n && Live(d, s)
  {
    if n == 0 then []
    else
      var front := LiveSlots(d, n - 1);
      if !Live(d, n - 1) then front
      else
        assert forall s :: s in front + [n - 1] <==> s in front || s == n - 1;
        front + [n - 1]
  }

  function IdsBelow(d: Data, n: nat): set<string> {
    set id | id in d.idToSlot && d.idToSlot[id] < n
  }

  function DeadBelow(d: Data, n: nat): set<nat> {
    set s | s in d.tombstones && s < n
  }

  lemma IdsStep(d: Data, dim: nat, n: nat)
    requires Valid(d, dim) && 0 < n <= |d.ids|
    ensures IdsBelow(d, n) == IdsBelow(d, n - 1) + if Live(d, n - 1) then {d.ids[n - 1]} else {}
    ensures Live(d, n - 1) ==> d.ids[n - 1] !in IdsBelow(d, n - 1)
  {
  }

  lemma CountStep(d: Data, dim: nat, n: nat)
    requires Shape(d, dim) && 0 < n <= |d.ids|
    ensures var one := if Live(d, n - 1) then 1 else 0;
      && |LiveSlots(d, n)| == |LiveSlots(d, n - 1)| + one
      && |PointsBelow(d, dim, n)| == |PointsBelow(d, dim, n - 1)| + one
  {
    hide Live, PointAt;
  }

  lemma {:induction false} CountIds(d: Data, dim: nat, n: nat)
    requires Valid(d, dim) && n <= |d.ids|
    ensures |IdsBelow(d, n)| == |LiveSlots(d, n)| == |PointsBelow(d, dim, n)|
  {
    assert Shape(d, dim);
    if n == 0 {
      assert IdsBelow(d, 0) == {};
    } else {
      hide *;
      CountIds(d, dim, n - 1);
      IdsStep(d, dim, n);
      CountStep(d, dim, n);
    }
  }

  lemma {:induction false} CountDead(d: Data, dim: nat, n: nat)
    requires Valid(d, dim) && n <= |d.ids|
    ensures |DeadBelow(d, n)| + |LiveSlots(d, n)| == n
  {
    if n == 0 {
      assert DeadBelow(d, 0) == {};
    } else {
      CountDead(d, dim, n - 1);
      assert DeadBelow(d, n) == DeadBelow(d, n - 1) + if Live(d, n - 1) then {} else {n - 1};
    }
  }

  /** Live and tombstoned slots partition the slots; `len` counts the live ones. */
  lemma SlotsPartition(d: Data, dim: nat)
    requires Valid(d, dim)
    ensures |d.idToSlot| == |LiveSlots(d, |d.ids|)| == |Points(d, dim)|
    ensures |d.tombstones| + |d.idToSlot| == |d.ids|
  {
    CountIds(d, dim, |d.ids|);
    CountDead(d, dim, |d.ids|);
    assert IdsBelow(d, |d.ids|) == d.idToSlot.Keys;
    assert DeadBelow(d, |d.ids|) == d.tombstones;
  }

  lemma RemovedKeyCount<T>(m: map<string, T>, id: string)
    ensures |m - {id}| == |m| - if id in m then 1 else 0
  {
    if id in m {
      assert m.Keys == (m - {id}).Keys + {id};
    } else {
      assert m - {id} == m;
    }
  }

  lemma DeletedCount(d: Data, id: string, dim: nat)
    requires Valid(d, dim)
    ensures Valid(Deleted(d, id), dim)
    ensures |Points(Deleted(d, id), dim)| == |Points(d, dim)| - if id in d.idToSlot then 1 else 0
  {
    DeletedFacts(d, id, dim);
    SlotsPartition(d, dim);
    SlotsPartition(Deleted(d, id), dim);
    RemovedKeyCount(d.idToSlot, id);
  }

  // ----- rebuilding ---------------------------------------------------------

  function LiveGraph(d: Data, dim: nat): Graph
    requires Shape(d, dim)
  {
    Graph(map s | 0 <= s < |d.ids| && Live(d, s) :: Row(d, dim, s))
  }

  /** The graph holds only live slots afterwards; an unindexed base stays unindexed. */
  function Reindexed(d: Data, dim: nat, metric: Metric): Data
    requires Shape(d, dim)
  {
    var unindexed := metric == DotProduct || (d.base.Some? && !d.base.value.indexed);
    d.(graph := if unindexed then None else Some(LiveGraph(d, dim)))
  }

  lemma ReindexRefines(d: Data, dim: nat, metric: Metric)
    requires Valid(d, dim)
    ensures Valid(Reindexed(d, dim, metric), dim)
    ensures Points(Reindexed(d, dim, metric), dim) == Points(d, dim)
    ensures Reindexed(d, dim, metric).tombstones == d.tombstones
  {
    var e := Reindexed(d, dim, metric);
    assert Shape(e, dim);
    assert forall s :: 0 <= s < |d.ids| ==> Row(e, dim, s) == Row(d, dim, s) && (Live(e, s) <==> Live(d, s));
    SamePoints(d, e, dim, |d.ids|);
  }

  lemma {:induction false} SamePoints(d: Data, e: Data, dim: nat, n: nat)
    requires Shape(d, dim) && Shape(e, dim) && n <= |d.ids| <= |e.ids|
    requires forall s :: 0 <= s < n ==> (Live(e, s) <==> Live(d, s))
    requires forall s :: 0 <= s < n && Live(d, s) ==> PointAt(e, dim, s) == PointAt(d, dim, s)
    ensures PointsBelow(e, dim, n) == PointsBelow(d, dim, n)
  {
    if n > 0 {
      SamePoints(d, e, dim, n - 1);
    }
  }

  lemma PointWidths(d: Data, dim: nat)
    requires Valid(d, dim)
    ensures forall i :: 0 <= i < |Points(d, dim)| ==> |Points(d, dim)[i].vector| == dim
  {
    PointsBelowMembers(d, dim, |d.ids|);
    forall i | 0 <= i < |Points(d, dim)| ensures |Points(d, dim)[i].vector| == dim {
      assert Points(d, dim)[i] in Points(d, dim);
    }
  }

  /** The store compaction starts from: no slots, the same declarations. */
  function Reset(d: Data, metric: Metric): Data {
    Data([], [], map[], {}, [], [], EmptyGraph(metric), Emptied(d.indexes), None, None, true)
  }

  lemma ResetFacts(d: Data, dim: nat, metric: Metric)
    ensures Valid(Reset(d, metric), dim) && Points(Reset(d, metric), dim) == []
    ensures Kinds(Reset(d, metric).indexes) == Kinds(d.indexes)
  {
    EmptyCoherent(Emptied(d.indexes));
  }

  /** Compaction: the live points again, renumbered from zero. */
  function Compacted(d: Data, dim: nat, metric: Metric): Data
    requires Valid(d, dim)
  {
    ResetFacts(d, dim, metric);
    PointWidths(d, dim);
    UpsertedAll(Reset(d, metric), Points(d, dim), dim)
  }

  lemma SameValid(d: Data, e: Data, dim: nat)
    requires Valid(d, dim) && e == d.(dirty := e.dirty, committed := e.committed)
    ensures Valid(e, dim) && Points(e, dim) == Points(d, dim)
  {
    assert Shape(e, dim);
    assert forall s :: 0 <= s < |d.ids| ==> Row(e, dim, s) == Row(d, dim, s);
    assert forall s :: Live(e, s) <==> Live(d, s);
    SamePoints(d, e, dim, |d.ids|);
  }

  lemma {:induction false} PutAllFresh(l: seq<Point>, batch: seq<Point>)
    requires DistinctIds(l + batch)
    ensures PutAll(l, batch) == l + batch
  {
    if batch != [] {
      var front, last := batch[..|batch| - 1], batch[|batch| - 1];
      assert l + batch == (l + front) + [last];
      assert DistinctIds(l + front) by {
        forall i, j | 0 <= i < j < |l + front| ensures (l + front)[i].id != (l + front)[j].id {
          assert (l + batch)[i].id != (l + batch)[j].id;
        }
      }
      PutAllFresh(l, front);
      forall i | 0 <= i < |l + front| ensures (l + front)[i].id != last.id {
        assert (l + batch)[i].id != (l + batch)[|l + front|].id;
      }
      WithoutAbsent(l + front, last.id);
    }
  }

  lemma {:induction false} WithoutAbsent(l: seq<Point>, id: string)
    requires forall i :: 0 <= i < |l| ==> l[i].id != id
    ensures Without(l, id) == l
  {
    if l != [] {
      var front, last := l[..|l| - 1], l[|l| - 1];
      WithoutAbsent(front, id);
      assert Without(l, id) == Without(front, id) + [last];
      hide *;
      assert front + [last] == l;
    }
  }

  /** Upserts into a store without tombstones of fresh ids leave no tombstone. */
  lemma {:induction false} FreshUpsertsLeaveNoTombstone(d: Data, batch: seq<Point>, dim: nat)
    requires Valid(d, dim) && forall i :: 0 <= i < |batch| ==> |batch[i].vector| == dim
    ensures |UpsertedAll(d, batch, dim).ids| == |d.ids| + |batch|
  {
    if batch != [] {
      FreshUpsertsLeaveNoTombstone(d, batch[..|batch| - 1], dim);
      UpsertedFacts(UpsertedAll(d, batch[..|batch| - 1], dim), batch[|batch| - 1], dim);
    }
  }

  /** Compaction keeps the live points, in order, and drops every tombstone. */
  lemma CompactRefines(d: Data, dim: nat, metric: Metric)
    requires Valid(d, dim)
    ensures Valid(Compacted(d, dim, metric), dim)
    ensures Points(Compacted(d, dim, metric), dim) == Points(d, dim)
    ensures Compacted(d, dim, metric).tombstones == {}
    ensures Kinds(Compacted(d, dim, metric).indexes) == Kinds(d.indexes)
  {
    var l := Points(d, dim);
    ResetFacts(d, dim, metric);
    PointWidths(d, dim);
    UpsertAllRefines(Reset(d, metric), l, dim);
    PointsBelowMembers(d, dim, |d.ids|);
    assert [] + l == l;
    PutAllFresh([], l);
    FreshUpsertsLeaveNoTombstone(Reset(d, metric), l, dim);
    SlotsPartition(Compacted(d, dim, metric), dim);
    assert |Compacted(d, dim, metric).tombstones| == 0;
  }

  // ----- late index declaration ---------------------------------------------

  function IndexDeclared(d: Data, name: string, kind: IndexKind): Data
    requires |d.payloads| == |d.ids|
  {
    if name in d.indexes then d
    else d.(indexes := Backfilled(Declared(d.indexes, name, kind), d.payloads, |d.payloads|), dirty := true)
  }

  lemma DeclareRefines(d: Data, name: string, kind: IndexKind, dim: nat)
    requires Valid(d, dim)
    ensures var e := IndexDeclared(d, name, kind);
            && Valid(e, dim) && Points(e, dim) == Points(d, dim)
            && Kinds(e.indexes) == if name in d.indexes then Kinds(d.indexes) else Kinds(d.indexes)[name := kind]
  {
    if name !in d.indexes {
      DeclareBackfillCoherent(d.indexes, name, kind, d.payloads);
      DeclareBackfillKinds(d.indexes, name, kind, d.payloads);
      var e := IndexDeclared(d, name, kind);
      assert Shape(e, dim);
      assert forall s :: 0 <= s < |d.ids| ==> Row(e, dim, s) == Row(d, dim, s);
      assert forall s :: Live(e, s) <==> Live(d, s);
      SamePoints(d, e, dim, |d.ids|);
    }
  }
}
